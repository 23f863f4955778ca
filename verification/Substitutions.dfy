/** Why three scattered substitutions change the checksum: the generator polynomial has three roots in geometric
    progression in the field of 1024 elements, and the progression's ratio has order 1023. */
module Substitutions {
  import opened BitGroups
  import opened Bech32m
  import opened Gf32
  import opened Gf1024
  import opened CheckField
  import opened Powers

  // ---------- Registers as polynomials, evaluated ----------

  function Lift(e: Element): Pair {
    Pair(e, ZERO)
  }

  function Horner(b: Pair, h: Pair, e: Element): Pair {
    Plus(Times(b, h), Lift(e))
  }

  function ValueFrom(b: Pair, h: Pair, x: Six): Pair {
    Horner(b, Horner(b, Horner(b, Horner(b, Horner(b, Horner(b, h, x.x0), x.x1), x.x2), x.x3), x.x4), x.x5)
  }

  /** The value at `b` of the polynomial with these coefficients, the highest first. */
  function ValueAt(b: Pair, x: Six): Pair {
    ValueFrom(b, NIL, x)
  }

  lemma HornerAdditive(b: Pair, h: Pair, k: Pair, e: Element, f: Element)
    ensures Horner(b, Plus(h, k), Add(e, f)) == Plus(Horner(b, h, e), Horner(b, k, f))
  {
    TimesAdditive(b, h, k);
    AddLaws(ZERO, ZERO, ZERO);
    FourPlus(Times(b, h), Times(b, k), Lift(e), Lift(f));
  }

  lemma HornerScale(b: Pair, u: Element, h: Pair, e: Element)
    ensures Horner(b, Scale(u, h), Mul(u, e)) == Scale(u, Horner(b, h, e))
  {
    TimesCommutes(b, Scale(u, h));
    TimesScale(u, h, b);
    TimesCommutes(h, b);
    MulZero(u);
    ScaleAdditive(u, Times(b, h), Lift(e));
  }

  lemma ValueAdditive(b: Pair, h: Pair, k: Pair, x: Six, y: Six)
    ensures ValueFrom(b, Plus(h, k), AddSix(x, y)) == Plus(ValueFrom(b, h, x), ValueFrom(b, k, y))
  {
    var h0, k0 := Horner(b, h, x.x0), Horner(b, k, y.x0);
    var h1, k1 := Horner(b, h0, x.x1), Horner(b, k0, y.x1);
    var h2, k2 := Horner(b, h1, x.x2), Horner(b, k1, y.x2);
    var h3, k3 := Horner(b, h2, x.x3), Horner(b, k2, y.x3);
    var h4, k4 := Horner(b, h3, x.x4), Horner(b, k3, y.x4);
    HornerAdditive(b, h, k, x.x0, y.x0);
    HornerAdditive(b, h0, k0, x.x1, y.x1);
    HornerAdditive(b, h1, k1, x.x2, y.x2);
    HornerAdditive(b, h2, k2, x.x3, y.x3);
    HornerAdditive(b, h3, k3, x.x4, y.x4);
    HornerAdditive(b, h4, k4, x.x5, y.x5);
  }

  lemma ValueScale(b: Pair, u: Element, x: Six)
    ensures ValueAt(b, Product(u, x)) == Scale(u, ValueAt(b, x))
  {
    var h0 := Horner(b, NIL, x.x0);
    var h1 := Horner(b, h0, x.x1);
    var h2 := Horner(b, h1, x.x2);
    var h3 := Horner(b, h2, x.x3);
    var h4 := Horner(b, h3, x.x4);
    MulZero(u);
    HornerScale(b, u, NIL, x.x0);
    HornerScale(b, u, h0, x.x1);
    HornerScale(b, u, h1, x.x2);
    HornerScale(b, u, h2, x.x3);
    HornerScale(b, u, h3, x.x4);
    HornerScale(b, u, h4, x.x5);
  }

  const TOP := Six(ONE, ZERO, ZERO, ZERO, ZERO, ZERO)

  /** An element of the large field with the intermediate values of Horner's rule at the generator polynomial, whose
      leading coefficient is one. */
  datatype Root = Root(b: Pair, h0: Pair, h1: Pair, h2: Pair, h3: Pair, h4: Pair)

  /** The last value is zero: a root of the generator polynomial. */
  predicate IsRoot(r: Root) {
    var c := Coefficients(0);
    && Horner(r.b, UNIT, c.x0) == r.h0 && Horner(r.b, r.h0, c.x1) == r.h1 && Horner(r.b, r.h1, c.x2) == r.h2
    && Horner(r.b, r.h2, c.x3) == r.h3 && Horner(r.b, r.h3, c.x4) == r.h4 && Horner(r.b, r.h4, c.x5) == NIL
  }

  lemma HornerZero(b: Pair, h: Pair)
    ensures Horner(b, h, ZERO) == Times(b, h)
  {
    PlusLaws(Times(b, h), NIL, NIL);
  }

  /** At a root, the sixth power is what the generator polynomial reduces it to. */
  lemma RootReduces(r: Root)
    requires IsRoot(r)
    ensures Times(r.b, ValueAt(r.b, TOP)) == ValueAt(r.b, Coefficients(0))
  {
    var b := r.b;
    var c := Coefficients(0);
    var h1 := Times(b, UNIT);
    var h2 := Times(b, h1);
    var h3 := Times(b, h2);
    var h4 := Times(b, h3);
    var h5 := Times(b, h4);
    TimesUnit(b);
    PlusLaws(NIL, UNIT, NIL);
    PlusLaws(UNIT, NIL, NIL);
    HornerZero(b, UNIT);
    HornerZero(b, h1);
    HornerZero(b, h2);
    HornerZero(b, h3);
    HornerZero(b, h4);
    HornerZero(b, h5);
    assert Horner(b, NIL, ONE) == UNIT;
    AddSixZero(c);
    ValueAdditive(b, UNIT, NIL, ZERO_SIX, c);
    SumZero(ValueFrom(b, UNIT, ZERO_SIX), ValueAt(b, c));
  }

  lemma AddSixZero(x: Six)
    ensures AddSix(ZERO_SIX, x) == x
  {
    AddLaws(ZERO, x.x0, ZERO);
    AddLaws(ZERO, x.x1, ZERO);
    AddLaws(ZERO, x.x2, ZERO);
    AddLaws(ZERO, x.x3, ZERO);
    AddLaws(ZERO, x.x4, ZERO);
    AddLaws(ZERO, x.x5, ZERO);
    AddSixLaws(x, ZERO_SIX, ZERO_SIX);
  }

  lemma SplitTop(x: Six)
    ensures x == AddSix(Product(x.x0, TOP), Six(ZERO, x.x1, x.x2, x.x3, x.x4, x.x5))
  {
    MulOne(x.x0);
    MulZero(x.x0);
    AddLaws(x.x0, ZERO, ZERO);
    AddLaws(ZERO, x.x1, ZERO);
    AddLaws(ZERO, x.x2, ZERO);
    AddLaws(ZERO, x.x3, ZERO);
    AddLaws(ZERO, x.x4, ZERO);
    AddLaws(ZERO, x.x5, ZERO);
    AddLaws(x.x1, ZERO, ZERO);
    AddLaws(x.x2, ZERO, ZERO);
    AddLaws(x.x3, ZERO, ZERO);
    AddLaws(x.x4, ZERO, ZERO);
    AddLaws(x.x5, ZERO, ZERO);
  }

  lemma ValueShifted(b: Pair, x: Six, v: Element)
    ensures ValueAt(b, Six(x.x1, x.x2, x.x3, x.x4, x.x5, v)) ==
            Horner(b, ValueAt(b, Six(ZERO, x.x1, x.x2, x.x3, x.x4, x.x5)), v)
  {
    HornerZero(b, NIL);
    TimesUnit(b);
  }

  /** At a root of the generator polynomial, a step of the checksum is a step of Horner's rule. */
  lemma StepValue(r: Root, x: Six, v: Element)
    requires IsRoot(r)
    ensures ValueAt(r.b, StepSix(x, v)) == Horner(r.b, ValueAt(r.b, x), v)
  {
    var b := r.b;
    var c := Coefficients(0);
    var rest := Six(ZERO, x.x1, x.x2, x.x3, x.x4, x.x5);
    var shifted := Six(x.x1, x.x2, x.x3, x.x4, x.x5, v);
    var t, w := ValueAt(b, TOP), ValueAt(b, rest);
    StepIsProduct(x, v);
    RootReduces(r);
    PlusLaws(NIL, NIL, NIL);
    ValueAdditive(b, NIL, NIL, shifted, Product(x.x0, c));
    ValueScale(b, x.x0, c);
    ValueShifted(b, x, v);
    SplitTop(x);
    ValueAdditive(b, NIL, NIL, Product(x.x0, TOP), rest);
    ValueScale(b, x.x0, TOP);
    HornerSplit(b, x.x0, t, w, v);
    PlusLaws(Horner(b, w, v), Scale(x.x0, Times(b, t)), NIL);
  }

  lemma HornerSplit(b: Pair, u: Element, t: Pair, r: Pair, v: Element)
    ensures Horner(b, Plus(Scale(u, t), r), v) == Plus(Scale(u, Times(b, t)), Horner(b, r, v))
  {
    AddLaws(ZERO, v, ZERO);
    AddLaws(v, ZERO, ZERO);
    HornerAdditive(b, Scale(u, t), r, ZERO, v);
    HornerZero(b, Scale(u, t));
    TimesCommutes(b, Scale(u, t));
    TimesScale(u, t, b);
    TimesCommutes(t, b);
  }

  // ---------- Three roots ----------

  const ROOT_0 := Root(
    Pair(Element(false, false, true, true, false), Element(true, true, true, true, false)),
    Pair(Element(true, true, false, true, true), Element(true, true, true, true, false)),
    Pair(Element(false, false, false, true, false), Element(false, true, false, true, true)),
    Pair(Element(true, false, true, false, true), Element(false, true, false, true, true)),
    Pair(Element(true, true, true, false, true), Element(false, true, true, true, true)),
    Pair(Element(false, true, true, true, true), Element(true, false, false, true, false)))

  const ROOT_1 := Root(
    Pair(Element(false, true, true, true, false), Element(true, true, false, true, true)),
    Pair(Element(true, false, false, true, true), Element(true, true, false, true, true)),
    Pair(Element(true, true, true, true, true), Element(false, true, false, false, false)),
    Pair(Element(false, true, true, false, true), Element(true, false, true, true, false)),
    Pair(Element(false, false, true, true, true), Element(true, false, true, true, false)),
    Pair(Element(true, true, false, false, false), Element(false, true, true, true, false)))

  const ROOT_2 := Root(
    Pair(Element(false, true, true, false, false), Element(true, true, false, false, false)),
    Pair(Element(true, false, false, false, true), Element(true, true, false, false, false)),
    Pair(Element(false, true, true, false, true), Element(false, false, false, true, true)),
    Pair(Element(true, true, false, true, true), Element(false, true, false, false, true)),
    Pair(Element(false, false, false, true, false), Element(true, true, false, false, true)),
    Pair(Element(true, false, true, false, true), Element(false, false, false, false, true)))

  /** The product of two elements, unrolled. */
  function Unrolled(u: Element, w: Element): Element {
    Next(u.b0, w, Next(u.b1, w, Next(u.b2, w, Next(u.b3, w, Next(u.b4, w, ZERO)))))
  }

  lemma HornerUnrolled(b: Pair, h: Pair, e: Element)
    ensures Horner(b, h, e) ==
            Pair(Add(Add(Unrolled(b.p, h.p), Unrolled(b.q, h.q)), e),
                 Add(Unrolled(b.p, h.q), Unrolled(b.q, Add(h.p, h.q))))
  {
    MulUnfolds(b.p, h.p);
    MulUnfolds(b.p, h.q);
    MulUnfolds(b.q, h.q);
    MulUnfolds(b.q, Add(h.p, h.q));
    AddLaws(Add(Unrolled(b.p, h.q), Unrolled(b.q, Add(h.p, h.q))), ZERO, ZERO);
  }

  lemma Start0()
    ensures var r, c := ROOT_0, Coefficients(0);
            Horner(r.b, UNIT, c.x0) == r.h0 && Horner(r.b, r.h0, c.x1) == r.h1 && Horner(r.b, r.h1, c.x2) == r.h2
  {
    var r, c := ROOT_0, Coefficients(0);
    HornerUnrolled(r.b, UNIT, c.x0);
    HornerUnrolled(r.b, r.h0, c.x1);
    HornerUnrolled(r.b, r.h1, c.x2);
  }

  lemma End0()
    ensures var r, c := ROOT_0, Coefficients(0);
            Horner(r.b, r.h2, c.x3) == r.h3 && Horner(r.b, r.h3, c.x4) == r.h4 && Horner(r.b, r.h4, c.x5) == NIL
  {
    var r, c := ROOT_0, Coefficients(0);
    HornerUnrolled(r.b, r.h2, c.x3);
    HornerUnrolled(r.b, r.h3, c.x4);
    HornerUnrolled(r.b, r.h4, c.x5);
  }

  lemma Start1()
    ensures var r, c := ROOT_1, Coefficients(0);
            Horner(r.b, UNIT, c.x0) == r.h0 && Horner(r.b, r.h0, c.x1) == r.h1 && Horner(r.b, r.h1, c.x2) == r.h2
  {
    var r, c := ROOT_1, Coefficients(0);
    HornerUnrolled(r.b, UNIT, c.x0);
    HornerUnrolled(r.b, r.h0, c.x1);
    HornerUnrolled(r.b, r.h1, c.x2);
  }

  lemma End1()
    ensures var r, c := ROOT_1, Coefficients(0);
            Horner(r.b, r.h2, c.x3) == r.h3 && Horner(r.b, r.h3, c.x4) == r.h4 && Horner(r.b, r.h4, c.x5) == NIL
  {
    var r, c := ROOT_1, Coefficients(0);
    HornerUnrolled(r.b, r.h2, c.x3);
    HornerUnrolled(r.b, r.h3, c.x4);
    HornerUnrolled(r.b, r.h4, c.x5);
  }

  lemma Start2()
    ensures var r, c := ROOT_2, Coefficients(0);
            Horner(r.b, UNIT, c.x0) == r.h0 && Horner(r.b, r.h0, c.x1) == r.h1 && Horner(r.b, r.h1, c.x2) == r.h2
  {
    var r, c := ROOT_2, Coefficients(0);
    HornerUnrolled(r.b, UNIT, c.x0);
    HornerUnrolled(r.b, r.h0, c.x1);
    HornerUnrolled(r.b, r.h1, c.x2);
  }

  lemma End2()
    ensures var r, c := ROOT_2, Coefficients(0);
            Horner(r.b, r.h2, c.x3) == r.h3 && Horner(r.b, r.h3, c.x4) == r.h4 && Horner(r.b, r.h4, c.x5) == NIL
  {
    var r, c := ROOT_2, Coefficients(0);
    HornerUnrolled(r.b, r.h2, c.x3);
    HornerUnrolled(r.b, r.h3, c.x4);
    HornerUnrolled(r.b, r.h4, c.x5);
  }

  lemma RootsAreRoots()
    ensures IsRoot(ROOT_0) && IsRoot(ROOT_1) && IsRoot(ROOT_2)
  {
    Start0();
    Start1();
    Start2();
    End0();
    End1();
    End2();
  }

  lemma RootsInProgression()
    ensures ROOT_1.b == Times(ROOT_0.b, ALPHA) && ROOT_2.b == Times(ROOT_1.b, ALPHA)
    ensures ROOT_0.b != NIL && ROOT_1.b != NIL && ROOT_2.b != NIL && ALPHA != NIL
  {
  }

  // ---------- Folding symbols is evaluating them ----------

  function ElementOf(v: Symbol): Element {
    Element(v[0], v[1], v[2], v[3], v[4])
  }

  lemma SymbolOfElement(v: Symbol)
    ensures SymbolOf(ElementOf(v)) == v
  {
  }

  /** Horner's rule over a string of symbols. */
  function Eval(b: Pair, h: Pair, s: seq<Symbol>): Pair
    decreases |s|
  {
    if s == [] then h else Eval(b, Horner(b, h, ElementOf(s[0])), s[1..])
  }

  /** If folding symbols into this register clears it, then the symbols have the value zero at every root. */
  lemma {:induction false} FoldValue(r: Root, x: Six, s: seq<Symbol>)
    requires IsRoot(r) && Fold(RegisterOf(x), s) == ZeroRegister()
    ensures Eval(r.b, ValueAt(r.b, x), s) == NIL
    decreases |s|
  {
    if s == [] {
      ZeroSixRegister();
      RegisterInjective(x, ZERO_SIX);
      ZeroValue(r.b);
    } else {
      SymbolOfElement(s[0]);
      StepRegisters(x, ElementOf(s[0]));
      StepValue(r, x, ElementOf(s[0]));
      FoldValue(r, StepSix(x, ElementOf(s[0])), s[1..]);
    }
  }

  lemma ZeroSixRegister()
    ensures RegisterOf(ZERO_SIX) == ZeroRegister()
  {
  }

  lemma ZeroValue(b: Pair)
    ensures ValueAt(b, ZERO_SIX) == NIL
  {
    HornerZero(b, NIL);
    TimesUnit(b);
  }

  // ---------- Few symbols among zeros ----------

  /** Zeros only multiply the value so far by powers of `b`. */
  lemma {:induction false} EvalZeros(b: Pair, h: Pair, s: seq<Symbol>, n: nat)
    requires n <= |s| && forall i :: 0 <= i < n ==> s[i] == ZERO_SYMBOL
    ensures Eval(b, h, s) == Eval(b, Times(Power(Times, UNIT, b, n), h), s[n..])
    decreases n
  {
    if n == 0 {
      TimesUnit(h);
      DropNone(s);
    } else {
      HornerZero(b, h);
      EvalZeros(b, Times(b, h), s[1..], n - 1);
      DropTail(s, n);
      MoveFactor(b, Power(Times, UNIT, b, n - 1), h);
    }
  }

  lemma MoveFactor(b: Pair, p: Pair, h: Pair)
    ensures Times(p, Times(b, h)) == Times(Times(b, p), h)
  {
    TimesAssoc(p, b, h);
    TimesCommutes(p, b);
  }

  /** Zeros followed by one symbol. */
  lemma EvalNext(b: Pair, h: Pair, s: seq<Symbol>, n: nat, p: nat)
    requires n < |s| && p == n + 1 && forall i :: 0 <= i < n ==> s[i] == ZERO_SYMBOL
    ensures Eval(b, h, s) == Eval(b, Plus(Times(Power(Times, UNIT, b, p), h), Lift(ElementOf(s[p - 1]))), s[p..])
  {
    EvalZeros(b, h, s, n);
    DropFirst(s, n, p);
    TimesAssoc(b, Power(Times, UNIT, b, n), h);
  }

  lemma DropFirst<T>(s: seq<T>, n: nat, p: nat)
    requires n < |s| && p == n + 1
    ensures s[n..][0] == s[p - 1] && s[n..][1..] == s[p..]
  {
  }

  lemma DropNone<T>(s: seq<T>)
    ensures s[0..] == s
  {
  }

  lemma DropTail<T>(s: seq<T>, n: nat)
    requires 0 < n <= |s|
    ensures s[1..][n - 1..] == s[n..]
  {
  }

  /** The value of three terms `u`, `v` and `w`, the first `p` places before the second, which is `q` places before the
      last. */
  function ThreeTerms(b: Pair, u: Pair, v: Pair, w: Pair, p: nat, q: nat): Pair {
    Plus(Times(Power(Times, UNIT, b, q), Plus(Times(Power(Times, UNIT, b, p), u), v)), w)
  }

  predicate OnlyThree(s: seq<Symbol>, i: nat, j: nat, k: nat) {
    && i < j < k < |s|
    && forall m :: 0 <= m < |s| && m != i && m != j && m != k ==> s[m] == ZERO_SYMBOL
  }

  function TermAt(s: seq<Symbol>, i: nat): Pair
    requires i < |s|
  {
    Lift(ElementOf(s[i]))
  }

  /** Three symbols among zeros have the value of three terms, up to a factor that is not zero. */
  lemma EvalThree(b: Pair, s: seq<Symbol>, i: nat, j: nat, k: nat, p: nat, q: nat) returns (f: Pair)
    requires b != NIL && OnlyThree(s, i, j, k) && p == j - i && q == k - j
    ensures f != NIL && Eval(b, NIL, s) == Times(f, ThreeTerms(b, TermAt(s, i), TermAt(s, j), TermAt(s, k), p, q))
  {
    var h := Plus(Times(Power(Times, UNIT, b, p), TermAt(s, i)), TermAt(s, j));
    EvalFirst(b, s, i);
    EvalSecond(b, TermAt(s, i), s, i, j, p);
    var value := Plus(Times(Power(Times, UNIT, b, q), h), TermAt(s, k));
    EvalSecond(b, h, s, j, k, q);
    f := EvalLast(b, value, s, k);
    assert value == ThreeTerms(b, TermAt(s, i), TermAt(s, j), TermAt(s, k), p, q);
  }

  /** To behind the first symbol that is not zero. */
  lemma EvalFirst(b: Pair, s: seq<Symbol>, i: nat)
    requires i < |s| && forall m :: 0 <= m < i ==> s[m] == ZERO_SYMBOL
    ensures Eval(b, NIL, s) == Eval(b, TermAt(s, i), s[i + 1..])
  {
    var p := i + 1;
    assert s[p - 1] == s[i];
    EvalNext(b, NIL, s, i, p);
    PlusAfterNil(Power(Times, UNIT, b, p), TermAt(s, i));
  }

  lemma PlusAfterNil(f: Pair, u: Pair)
    ensures Plus(Times(f, NIL), u) == u
  {
    TimesUnit(f);
    PlusLaws(NIL, u, NIL);
    PlusLaws(u, NIL, NIL);
  }

  /** From behind the last symbol that is not zero to the end. */
  lemma EvalLast(b: Pair, h: Pair, s: seq<Symbol>, k: nat) returns (f: Pair)
    requires b != NIL && k < |s| && forall m :: k < m < |s| ==> s[m] == ZERO_SYMBOL
    ensures f != NIL && Eval(b, h, s[k + 1..]) == Times(f, h)
  {
    var rest := s[k + 1..];
    EvalZeros(b, h, rest, |rest|);
    f := Power(Times, UNIT, b, |rest|);
    PowNonzero(b, |rest|);
    DropAll(rest);
  }

  lemma DropAll<T>(s: seq<T>)
    ensures s[|s|..] == []
  {
  }

  /** From behind one symbol to behind the next that is not zero, `p` places on. */
  lemma EvalSecond(b: Pair, h: Pair, s: seq<Symbol>, i: nat, j: nat, p: nat)
    requires i < j < |s| && p == j - i && forall m :: i < m < j ==> s[m] == ZERO_SYMBOL
    ensures Eval(b, h, s[i + 1..]) == Eval(b, Plus(Times(Power(Times, UNIT, b, p), h), TermAt(s, j)), s[j + 1..])
  {
    var rest, last := s[i + 1..], s[j + 1..];
    DropDrop(s, i + 1, p, j + 1);
    assert rest[p..] == last && rest[p - 1] == s[j];
    EvalNext(b, h, rest, p - 1, p);
  }

  lemma DropDrop<T>(s: seq<T>, m: nat, n: nat, k: nat)
    requires 0 < n && k == m + n && k <= |s|
    ensures s[m..][n..] == s[k..] && s[m..][n - 1] == s[k - 1]
  {
  }

  /** At three roots in geometric progression, three terms vanish only together. */
  lemma Vandermonde(a: Pair, b: Pair, c: Pair, x: Pair, y: Pair)
    requires x != UNIT && y != UNIT && x != y
    requires Plus(Plus(a, b), c) == NIL
    requires Plus(Plus(Times(x, a), Times(y, b)), c) == NIL
    requires Plus(Plus(Times(Times(x, x), a), Times(Times(y, y), b)), c) == NIL
    ensures a == NIL && b == NIL && c == NIL
  {
    FirstDifference(a, b, c, x, y);
    SecondDifference(a, b, c, x, y);
    TwoTerms(Times(Plus(x, UNIT), a), Times(Plus(y, UNIT), b), x, y);
    FactorZero(x, a);
    FactorZero(y, b);
    PlusLaws(NIL, NIL, NIL);
    PlusLaws(c, NIL, NIL);
    PlusLaws(NIL, c, NIL);
  }

  lemma FactorZero(x: Pair, a: Pair)
    requires x != UNIT && Times(Plus(x, UNIT), a) == NIL
    ensures a == NIL
  {
    SumZero(x, UNIT);
    NoZeroFactors(Plus(x, UNIT), a);
  }

  lemma FirstDifference(a: Pair, b: Pair, c: Pair, x: Pair, y: Pair)
    requires Plus(Plus(a, b), c) == NIL && Plus(Plus(Times(x, a), Times(y, b)), c) == NIL
    ensures Plus(Times(Plus(x, UNIT), a), Times(Plus(y, UNIT), b)) == NIL
  {
    TimesUnit(a);
    TimesUnit(b);
    Eliminate(a, b, c, UNIT, UNIT, x, y);
    Difference(x, a);
    Difference(y, b);
  }

  lemma SecondDifference(a: Pair, b: Pair, c: Pair, x: Pair, y: Pair)
    requires Plus(Plus(Times(x, a), Times(y, b)), c) == NIL
    requires Plus(Plus(Times(Times(x, x), a), Times(Times(y, y), b)), c) == NIL
    ensures Plus(Times(x, Times(Plus(x, UNIT), a)), Times(y, Times(Plus(y, UNIT), b))) == NIL
  {
    Eliminate(a, b, c, x, y, Times(x, x), Times(y, y));
    DifferenceTwice(x, a);
    DifferenceTwice(y, b);
  }

  lemma Eliminate(a: Pair, b: Pair, c: Pair, x: Pair, y: Pair, z: Pair, w: Pair)
    requires Plus(Plus(Times(x, a), Times(y, b)), c) == NIL && Plus(Plus(Times(z, a), Times(w, b)), c) == NIL
    ensures Plus(Plus(Times(x, a), Times(z, a)), Plus(Times(y, b), Times(w, b))) == NIL
  {
    SumZero(Plus(Times(x, a), Times(y, b)), c);
    SumZero(Plus(Times(z, a), Times(w, b)), c);
    FourPlus(Times(x, a), Times(y, b), Times(z, a), Times(w, b));
    PlusLaws(c, NIL, NIL);
  }

  lemma Difference(x: Pair, a: Pair)
    ensures Plus(Times(UNIT, a), Times(x, a)) == Times(Plus(x, UNIT), a)
  {
    TimesLinear(x, UNIT, a);
    PlusLaws(Times(UNIT, a), Times(x, a), NIL);
  }

  lemma DifferenceTwice(x: Pair, a: Pair)
    ensures Plus(Times(x, a), Times(Times(x, x), a)) == Times(x, Times(Plus(x, UNIT), a))
  {
    Difference(x, a);
    TimesUnit(a);
    TimesAdditive(x, a, Times(x, a));
    TimesAssoc(x, x, a);
  }

  lemma TwoTerms(a: Pair, b: Pair, x: Pair, y: Pair)
    requires x != y && Plus(a, b) == NIL && Plus(Times(x, a), Times(y, b)) == NIL
    ensures a == NIL && b == NIL
  {
    SumZero(a, b);
    SumZero(x, y);
    TimesLinear(x, y, a);
    NoZeroFactors(Plus(x, y), a);
  }

  // ---------- Three substitutions ----------

  lemma PowerOfProduct(b: Pair, a: Pair, n: nat)
    ensures Power(Times, UNIT, Times(b, a), n) == Times(Power(Times, UNIT, b, n), Power(Times, UNIT, a, n))
  {
    TimesMonoid();
    PowerTimes(Times, UNIT, b, a, n);
  }

  lemma PowerOfSum(a: Pair, m: nat, n: nat)
    ensures Power(Times, UNIT, a, m + n) == Times(Power(Times, UNIT, a, m), Power(Times, UNIT, a, n))
  {
    TimesMonoid();
    PowerAdd(Times, UNIT, a, m, n);
  }

  /** Multiplying the powers by `y` and `x` multiplies the terms. */
  lemma Expand(q: Pair, p: Pair, y: Pair, x: Pair, u: Pair, v: Pair)
    ensures Times(Times(q, y), Plus(Times(Times(p, x), u), v)) ==
            Plus(Times(Times(y, x), Times(Times(q, p), u)), Times(y, Times(q, v)))
  {
    TimesAdditive(Times(q, y), Times(Times(p, x), u), v);
    TimesAssoc(Times(q, y), Times(p, x), u);
    Exchange(q, y, p, x);
    TimesCommutes(Times(q, p), Times(y, x));
    TimesAssoc(Times(y, x), Times(q, p), u);
    TimesCommutes(q, y);
    TimesAssoc(y, q, v);
  }

  lemma Exchange(a: Pair, b: Pair, c: Pair, d: Pair)
    ensures Times(Times(a, b), Times(c, d)) == Times(Times(a, c), Times(b, d))
  {
    TimesAssoc(a, b, Times(c, d));
    TimesAssoc(b, c, d);
    TimesCommutes(b, c);
    TimesAssoc(c, b, d);
    TimesAssoc(a, c, Times(b, d));
  }

  lemma ExpandUnit(q: Pair, p: Pair, u: Pair, v: Pair)
    ensures Times(q, Plus(Times(p, u), v)) == Plus(Times(Times(q, p), u), Times(q, v))
  {
    TimesAdditive(q, Times(p, u), v);
    TimesAssoc(q, p, u);
  }

  lemma ExpandSquare(q: Pair, p: Pair, y: Pair, x: Pair, u: Pair, v: Pair)
    ensures var z := Times(y, x);
            Times(Times(Times(q, y), y), Plus(Times(Times(Times(p, x), x), u), v)) ==
            Plus(Times(Times(z, z), Times(Times(q, p), u)), Times(Times(y, y), Times(q, v)))
  {
    Expand(q, p, Times(y, y), Times(x, x), u, v);
    TimesAssoc(q, y, y);
    TimesAssoc(p, x, x);
    Exchange(y, y, x, x);
  }

  /** The three values of three terms at points in geometric progression. */
  lemma TermsVanish(q: Pair, p: Pair, y: Pair, x: Pair, u: Pair, v: Pair, w: Pair)
    requires q != NIL && p != NIL && y != NIL && y != UNIT && x != UNIT && Times(y, x) != UNIT
    requires Plus(Times(q, Plus(Times(p, u), v)), w) == NIL
    requires Plus(Times(Times(q, y), Plus(Times(Times(p, x), u), v)), w) == NIL
    requires Plus(Times(Times(Times(q, y), y), Plus(Times(Times(Times(p, x), x), u), v)), w) == NIL
    ensures u == NIL && v == NIL && w == NIL
  {
    ExpandUnit(q, p, u, v);
    Expand(q, p, y, x, u, v);
    ExpandSquare(q, p, y, x, u, v);
    Distinct(y, x);
    Vandermonde(Times(Times(q, p), u), Times(q, v), w, Times(y, x), y);
    ProductNonzero(q, p);
    FactorNil(Times(q, p), u);
    FactorNil(q, v);
  }

  lemma FactorNil(x: Pair, y: Pair)
    requires x != NIL && Times(x, y) == NIL
    ensures y == NIL
  {
    NoZeroFactors(x, y);
  }

  lemma Distinct(y: Pair, x: Pair)
    requires y != NIL && x != UNIT
    ensures Times(y, x) != y
  {
    TimesUnit(y);
    if Times(y, x) == y {
      Cancel(y, x, UNIT);
    }
  }

  /** A nonzero root with a ratio to the next two, no power of which below `order` is one. */
  lemma RootsSeparate(b0: Pair, b1: Pair, b2: Pair, a: Pair, u: Pair, v: Pair, w: Pair, p: nat, q: nat)
    requires b0 != NIL && a != NIL && b1 == Times(b0, a) && b2 == Times(b1, a)
    requires !Period(Times, UNIT, a, p) && !Period(Times, UNIT, a, q) && !Period(Times, UNIT, a, q + p)
    requires ThreeTerms(b0, u, v, w, p, q) == NIL
    requires ThreeTerms(b1, u, v, w, p, q) == NIL
    requires ThreeTerms(b2, u, v, w, p, q) == NIL
    ensures u == NIL && v == NIL && w == NIL
  {
    PowNonzero(b0, p);
    PowNonzero(b0, q);
    PowNonzero(a, q);
    PowerOfProduct(b0, a, p);
    PowerOfProduct(b0, a, q);
    PowerOfProduct(b1, a, p);
    PowerOfProduct(b1, a, q);
    PowerOfSum(a, q, p);
    TermsVanish(Power(Times, UNIT, b0, q), Power(Times, UNIT, b0, p),
                Power(Times, UNIT, a, q), Power(Times, UNIT, a, p), u, v, w);
  }

  lemma ValueVanishes(r: Root, s: seq<Symbol>)
    requires IsRoot(r) && Fold(ZeroRegister(), s) == ZeroRegister()
    ensures Eval(r.b, NIL, s) == NIL
  {
    ZeroSixRegister();
    FoldValue(r, ZERO_SIX, s);
    ZeroValue(r.b);
  }

  lemma TermsNil(b: Pair, s: seq<Symbol>, i: nat, j: nat, k: nat, p: nat, q: nat)
    requires b != NIL && OnlyThree(s, i, j, k) && Eval(b, NIL, s) == NIL && p == j - i && q == k - j
    ensures ThreeTerms(b, TermAt(s, i), TermAt(s, j), TermAt(s, k), p, q) == NIL
  {
    var f := EvalThree(b, s, i, j, k, p, q);
    FactorNil(f, ThreeTerms(b, TermAt(s, i), TermAt(s, j), TermAt(s, k), p, q));
  }

  lemma NilTerm(v: Symbol)
    requires Lift(ElementOf(v)) == NIL
    ensures v == ZERO_SYMBOL
  {
    SymbolOfElement(v);
  }

  /** The value of three symbols among zeros at a root that the symbols vanish at. */
  lemma TermsAtRoot(r: Root, s: seq<Symbol>, i: nat, j: nat, k: nat, p: nat, q: nat)
    requires IsRoot(r) && r.b != NIL && p == j - i && q == k - j
    requires OnlyThree(s, i, j, k) && Fold(ZeroRegister(), s) == ZeroRegister()
    ensures ThreeTerms(r.b, TermAt(s, i), TermAt(s, j), TermAt(s, k), p, q) == NIL
  {
    ValueVanishes(r, s);
    TermsNil(r.b, s, i, j, k, p, q);
  }

  /** Three roots in progression, whose ratio separates the three places, vanish only where the symbols do. */
  lemma TermsZero(r0: Root, r1: Root, r2: Root, a: Pair, s: seq<Symbol>, i: nat, j: nat, k: nat, p: nat, q: nat)
    requires IsRoot(r0) && IsRoot(r1) && IsRoot(r2)
    requires r0.b != NIL && r1.b != NIL && r2.b != NIL && a != NIL
    requires r1.b == Times(r0.b, a) && r2.b == Times(r1.b, a)
    requires !Period(Times, UNIT, a, p) && !Period(Times, UNIT, a, q) && !Period(Times, UNIT, a, q + p)
    requires OnlyThree(s, i, j, k) && Fold(ZeroRegister(), s) == ZeroRegister() && p == j - i && q == k - j
    ensures TermAt(s, i) == NIL && TermAt(s, j) == NIL && TermAt(s, k) == NIL
  {
    TermsAtRoot(r0, s, i, j, k, p, q);
    TermsAtRoot(r1, s, i, j, k, p, q);
    TermsAtRoot(r2, s, i, j, k, p, q);
    RootsSeparate(r0.b, r1.b, r2.b, a, TermAt(s, i), TermAt(s, j), TermAt(s, k), p, q);
  }

  lemma AlphaSeparates(p: nat, q: nat)
    requires 0 < p && 0 < q && q + p < 1023
    ensures !Period(Times, UNIT, ALPHA, p) && !Period(Times, UNIT, ALPHA, q) && !Period(Times, UNIT, ALPHA, q + p)
  {
    AlphaOrder(p);
    AlphaOrder(q);
    AlphaOrder(q + p);
  }

  lemma TermsClear(s: seq<Symbol>, i: nat, j: nat, k: nat, p: nat, q: nat)
    requires OnlyThree(s, i, j, k) && Fold(ZeroRegister(), s) == ZeroRegister()
    requires p == j - i && q == k - j && q + p < 1023
    ensures TermAt(s, i) == NIL && TermAt(s, j) == NIL && TermAt(s, k) == NIL
  {
    RootsAreRoots();
    RootsInProgression();
    AlphaSeparates(p, q);
    TermsZero(ROOT_0, ROOT_1, ROOT_2, ALPHA, s, i, j, k, p, q);
  }

  /** Three symbols among zeros do not clear the register unless all are zero. */
  lemma ThreeSymbolsVanish(s: seq<Symbol>, i: nat, j: nat, k: nat)
    requires |s| <= 1023 && OnlyThree(s, i, j, k) && Fold(ZeroRegister(), s) == ZeroRegister()
    ensures s[i] == ZERO_SYMBOL && s[j] == ZERO_SYMBOL && s[k] == ZERO_SYMBOL
  {
    TermsClear(s, i, j, k, j - i, k - j);
    NilTerm(s[i]);
    NilTerm(s[j]);
    NilTerm(s[k]);
  }

  /** Two different symbol strings of at most 1023 symbols that differ in no more than three places, wherever they are,
      have different checksums. */
  lemma ThreeChangesShow(c: Register, s: seq<Symbol>, t: seq<Symbol>, i: nat, j: nat, k: nat)
    requires |s| == |t| <= 1023 && s != t && i < j < k < |s|
    requires forall m :: 0 <= m < |s| && m != i && m != j && m != k ==> s[m] == t[m]
    ensures Fold(c, s) != Fold(c, t)
  {
    if Fold(c, s) == Fold(c, t) {
      var d := XorSymbols(s, t);
      FoldLinear(c, c, s, t);
      XorZero(c, c);
      XorZero(Fold(c, s), Fold(c, t));
      SameSymbolsCancel(s, t, i, j, k);
      ThreeSymbolsVanish(d, i, j, k);
      XorSymbolsZero(s, t);
    }
  }

  lemma SameSymbolsCancel(s: seq<Symbol>, t: seq<Symbol>, i: nat, j: nat, k: nat)
    requires |s| == |t| && i < j < k < |s|
    requires forall m :: 0 <= m < |s| && m != i && m != j && m != k ==> s[m] == t[m]
    ensures OnlyThree(XorSymbols(s, t), i, j, k)
  {
    forall m | 0 <= m < |s| && m != i && m != j && m != k
      ensures XorSymbols(s, t)[m] == ZERO_SYMBOL
    {
      XorZero(s[m], t[m]);
    }
  }
}
