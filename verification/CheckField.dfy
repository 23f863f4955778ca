/** The checksum register as six elements of the field of 32, where one step of the checksum multiplies a polynomial by
    its variable, adds a symbol and reduces modulo the generator polynomial (BIP-173, section "Checksum design"). */
module CheckField {
  import opened BitGroups
  import opened Bech32m
  import opened Gf32

  /** The checksum register as six field elements. */
  datatype Six = Six(x0: Element, x1: Element, x2: Element, x3: Element, x4: Element, x5: Element)

  function Digit(b: bool): (r: nat)
    ensures r < 2
  {
    if b then 1 else 0
  }

  /** A number with the five digits of an element appended. */
  function Append(a: nat, e: Element): nat {
    2 * (2 * (2 * (2 * (2 * a + Digit(e.b4)) + Digit(e.b3)) + Digit(e.b2)) + Digit(e.b1)) + Digit(e.b0)
  }

  /** The coefficients of generator multiple `i`. */
  function Coefficients(i: nat): Six
    requires i < 5
  {
    if i == 0 then
      Six(Element(true, true, true, false, true), Element(true, false, true, true, false),
          Element(true, false, true, false, false), Element(true, false, true, false, true),
          Element(true, true, true, false, true), Element(true, false, false, true, false))
    else if i == 1 then
      Six(Element(true, false, false, true, true), Element(false, false, true, false, true),
          Element(false, false, false, false, true), Element(false, false, false, true, true),
          Element(true, false, false, true, true), Element(false, true, true, false, true))
    else if i == 2 then
      Six(Element(false, true, true, true, true), Element(false, true, false, true, false),
          Element(false, false, false, true, false), Element(false, false, true, true, false),
          Element(false, true, true, true, true), Element(true, true, false, true, false))
    else if i == 3 then
      Six(Element(true, true, true, true, false), Element(true, false, true, false, false),
          Element(false, false, true, false, false), Element(false, true, true, false, false),
          Element(true, true, true, true, false), Element(true, true, true, false, true))
    else
      Six(Element(true, false, true, false, true), Element(false, false, false, false, true),
          Element(false, true, false, false, false), Element(true, true, false, false, false),
          Element(true, false, true, false, true), Element(true, false, false, true, true))
  }

  function NumberOf(c: Six): nat {
    Append(Append(Append(Append(Append(Append(0, c.x0), c.x1), c.x2), c.x3), c.x4), c.x5)
  }

  lemma Number0(i: nat, c: Six)
    requires i == 0 && c == Coefficients(i)
    ensures NumberOf(c) == GENERATOR[i]
  {
    assert Append(0, c.x0) == 29 && Append(29, c.x1) == 950 && Append(950, c.x2) == 30420;
    assert Append(30420, c.x3) == 973461 && Append(973461, c.x4) == 31150781;
  }

  lemma Number1(i: nat, c: Six)
    requires i == 1 && c == Coefficients(i)
    ensures NumberOf(c) == GENERATOR[i]
  {
    assert Append(0, c.x0) == 19 && Append(19, c.x1) == 613 && Append(613, c.x2) == 19617;
    assert Append(19617, c.x3) == 627747 && Append(627747, c.x4) == 20087923;
  }

  lemma Number2(i: nat, c: Six)
    requires i == 2 && c == Coefficients(i)
    ensures NumberOf(c) == GENERATOR[i]
  {
    assert Append(0, c.x0) == 15 && Append(15, c.x1) == 490 && Append(490, c.x2) == 15682;
    assert Append(15682, c.x3) == 501830 && Append(501830, c.x4) == 16058575;
  }

  lemma Number3(i: nat, c: Six)
    requires i == 3 && c == Coefficients(i)
    ensures NumberOf(c) == GENERATOR[i]
  {
    assert Append(0, c.x0) == 30 && Append(30, c.x1) == 980 && Append(980, c.x2) == 31364;
    assert Append(31364, c.x3) == 1003660 && Append(1003660, c.x4) == 32117150;
  }

  lemma Number4(i: nat, c: Six)
    requires i == 4 && c == Coefficients(i)
    ensures NumberOf(c) == GENERATOR[i]
  {
    assert Append(0, c.x0) == 21 && Append(21, c.x1) == 673 && Append(673, c.x2) == 21544;
    assert Append(21544, c.x3) == 689432 && Append(689432, c.x4) == 22061845;
  }

  lemma GeneratorNumber(i: nat)
    requires i < 5
    ensures NumberOf(Coefficients(i)) == GENERATOR[i]
  {
    var c := Coefficients(i);
    if i == 0 {
      Number0(i, c);
    } else if i == 1 {
      Number1(i, c);
    } else if i == 2 {
      Number2(i, c);
    } else if i == 3 {
      Number3(i, c);
    } else {
      Number4(i, c);
    }
  }

  function SixTimesX(x: Six): Six {
    Six(TimesX(x.x0), TimesX(x.x1), TimesX(x.x2), TimesX(x.x3), TimesX(x.x4), TimesX(x.x5))
  }

  /** Each generator multiple is the one before times `x`. */
  lemma NextMultiple(i: nat)
    requires i < 4
    ensures Coefficients(i + 1) == SixTimesX(Coefficients(i))
  {
  }

  function SymbolOf(e: Element): (s: Symbol)
    ensures |s| == 5
  {
    [e.b4, e.b3, e.b2, e.b1, e.b0]
  }

  function RegisterOf(x: Six): Register {
    SymbolOf(x.x0) + SymbolOf(x.x1) + SymbolOf(x.x2) + SymbolOf(x.x3) + SymbolOf(x.x4) + SymbolOf(x.x5)
  }

  lemma ValueSnoc(s: seq<bool>, b: bool)
    ensures ValueOf(s + [b]) == 2 * ValueOf(s) + Digit(b)
  {
    assert (s + [b])[..|s + [b]| - 1] == s;
  }

  lemma ValueAppend(s: seq<bool>, e: Element)
    ensures ValueOf(s + SymbolOf(e)) == Append(ValueOf(s), e)
  {
    var s4 := s + [e.b4];
    var s3 := s4 + [e.b3];
    var s2 := s3 + [e.b2];
    var s1 := s2 + [e.b1];
    ValueSnoc(s, e.b4);
    ValueSnoc(s4, e.b3);
    ValueSnoc(s3, e.b2);
    ValueSnoc(s2, e.b1);
    ValueSnoc(s1, e.b0);
    OneByOne(s, e);
  }

  lemma OneByOne(s: seq<bool>, e: Element)
    ensures s + SymbolOf(e) == s + [e.b4] + [e.b3] + [e.b2] + [e.b1] + [e.b0]
  {
  }

  lemma RegisterNumber(c: Six)
    ensures BitsOf(NumberOf(c), 30) == RegisterOf(c)
  {
    var s0 := SymbolOf(c.x0);
    var s1 := s0 + SymbolOf(c.x1);
    var s2 := s1 + SymbolOf(c.x2);
    var s3 := s2 + SymbolOf(c.x3);
    var s4 := s3 + SymbolOf(c.x4);
    ValueAppend([], c.x0);
    ValueAppend(s0, c.x1);
    ValueAppend(s1, c.x2);
    ValueAppend(s2, c.x3);
    ValueAppend(s3, c.x4);
    ValueAppend(s4, c.x5);
    assert [] + s0 == s0;
    BitsOfValueOf(RegisterOf(c));
  }

  lemma GeneratorRegister(i: nat)
    requires i < 5
    ensures Generator(i) == RegisterOf(Coefficients(i))
  {
    GeneratorNumber(i);
    RegisterNumber(Coefficients(i));
  }

  lemma XorAppend(s: seq<bool>, t: seq<bool>, e: Element, f: Element)
    requires |s| == |t|
    ensures Xor(s + SymbolOf(e), t + SymbolOf(f)) == Xor(s, t) + SymbolOf(Add(e, f))
  {
    XorConcat(s, t, SymbolOf(e), SymbolOf(f));
    XorSymbol(e, f);
  }

  lemma SymbolAt(e: Element, i: nat)
    requires i < 5
    ensures SymbolOf(e)[i] == Bit(e, 4 - i)
  {
  }

  lemma XorSymbol(e: Element, f: Element)
    ensures Xor(SymbolOf(e), SymbolOf(f)) == SymbolOf(Add(e, f))
  {
    forall i | 0 <= i < 5
      ensures Xor(SymbolOf(e), SymbolOf(f))[i] == SymbolOf(Add(e, f))[i]
    {
      SymbolAt(e, i);
      SymbolAt(f, i);
      SymbolAt(Add(e, f), i);
      BitOfSum(e, f, 4 - i);
    }
  }

  lemma XorConcat(s: seq<bool>, t: seq<bool>, a: seq<bool>, b: seq<bool>)
    requires |s| == |t| && |a| == |b|
    ensures Xor(s + a, t + b) == Xor(s, t) + Xor(a, b)
  {
  }

  function AddSix(x: Six, y: Six): Six {
    Six(Add(x.x0, y.x0), Add(x.x1, y.x1), Add(x.x2, y.x2), Add(x.x3, y.x3), Add(x.x4, y.x4), Add(x.x5, y.x5))
  }

  lemma XorRegisters(x: Six, y: Six)
    ensures Xor(RegisterOf(x), RegisterOf(y)) == RegisterOf(AddSix(x, y))
  {
    var s0, t0 := SymbolOf(x.x0), SymbolOf(y.x0);
    var s1, t1 := s0 + SymbolOf(x.x1), t0 + SymbolOf(y.x1);
    var s2, t2 := s1 + SymbolOf(x.x2), t1 + SymbolOf(y.x2);
    var s3, t3 := s2 + SymbolOf(x.x3), t2 + SymbolOf(y.x3);
    var s4, t4 := s3 + SymbolOf(x.x4), t3 + SymbolOf(y.x4);
    XorSymbol(x.x0, y.x0);
    XorAppend(s0, t0, x.x1, y.x1);
    XorAppend(s1, t1, x.x2, y.x2);
    XorAppend(s2, t2, x.x3, y.x3);
    XorAppend(s3, t3, x.x4, y.x4);
    XorAppend(s4, t4, x.x5, y.x5);
  }

  lemma AppendInjective(s: seq<bool>, t: seq<bool>, e: Element, f: Element)
    requires |s| == |t| && s + SymbolOf(e) == t + SymbolOf(f)
    ensures s == t && e == f
  {
    TakeDrop(s, SymbolOf(e));
    TakeDrop(t, SymbolOf(f));
    SymbolInjective(e, f);
  }

  lemma TakeDrop(s: seq<bool>, a: seq<bool>)
    ensures (s + a)[..|s|] == s && (s + a)[|s|..] == a
  {
  }

  lemma SymbolInjective(e: Element, f: Element)
    ensures SymbolOf(e) == SymbolOf(f) ==> e == f
  {
    assert SymbolOf(e)[0] == e.b4 && SymbolOf(e)[1] == e.b3 && SymbolOf(e)[2] == e.b2;
    assert SymbolOf(e)[3] == e.b1 && SymbolOf(e)[4] == e.b0;
  }

  lemma RegisterInjective(x: Six, y: Six)
    requires RegisterOf(x) == RegisterOf(y)
    ensures x == y
  {
    var s0, t0 := SymbolOf(x.x0), SymbolOf(y.x0);
    var s1, t1 := s0 + SymbolOf(x.x1), t0 + SymbolOf(y.x1);
    var s2, t2 := s1 + SymbolOf(x.x2), t1 + SymbolOf(y.x2);
    var s3, t3 := s2 + SymbolOf(x.x3), t2 + SymbolOf(y.x3);
    var s4, t4 := s3 + SymbolOf(x.x4), t3 + SymbolOf(y.x4);
    AppendInjective(s4, t4, x.x5, y.x5);
    AppendInjective(s3, t3, x.x4, y.x4);
    AppendInjective(s2, t2, x.x3, y.x3);
    AppendInjective(s1, t1, x.x2, y.x2);
    AppendInjective(s0, t0, x.x1, y.x1);
    SymbolInjective(x.x0, y.x0);
  }

  // ---------- One step of the checksum ----------

  /** `Reduce` on field elements. */
  function ReduceSix(e: Element, x: Six, n: nat): Six
    requires n <= 5
  {
    if n == 0 then x
    else if Bit(e, n - 1) then AddSix(ReduceSix(e, x, n - 1), Coefficients(n - 1))
    else ReduceSix(e, x, n - 1)
  }

  function StepSix(x: Six, v: Element): Six {
    ReduceSix(x.x0, Six(x.x1, x.x2, x.x3, x.x4, x.x5, v), 5)
  }

  lemma RegisterSplit(x: Six, v: Element)
    ensures RegisterOf(x)[..5] == SymbolOf(x.x0)
    ensures RegisterOf(x)[5..] + SymbolOf(v) == RegisterOf(Six(x.x1, x.x2, x.x3, x.x4, x.x5, v))
  {
    var s := SymbolOf(x.x1) + SymbolOf(x.x2) + SymbolOf(x.x3) + SymbolOf(x.x4) + SymbolOf(x.x5);
    SixConcat(SymbolOf(x.x0), SymbolOf(x.x1), SymbolOf(x.x2), SymbolOf(x.x3), SymbolOf(x.x4), SymbolOf(x.x5));
    TakeDrop(SymbolOf(x.x0), s);
  }

  lemma SixConcat(a: seq<bool>, b: seq<bool>, c: seq<bool>, d: seq<bool>, e: seq<bool>, f: seq<bool>)
    ensures a + b + c + d + e + f == a + (b + c + d + e + f)
  {
  }

  lemma TopBit(x: Six, i: nat)
    requires i < 5
    ensures RegisterOf(x)[4 - i] == Bit(x.x0, i)
  {
    RegisterSplit(x, ZERO);
    assert RegisterOf(x)[4 - i] == RegisterOf(x)[..5][4 - i];
  }

  lemma {:induction false} ReduceRegisters(x: Six, y: Six, n: nat)
    requires n <= 5
    ensures Reduce(RegisterOf(x), RegisterOf(y), n) == RegisterOf(ReduceSix(x.x0, y, n))
  {
    if n > 0 {
      ReduceRegisters(x, y, n - 1);
      TopBit(x, n - 1);
      GeneratorRegister(n - 1);
      XorRegisters(ReduceSix(x.x0, y, n - 1), Coefficients(n - 1));
    }
  }

  lemma StepRegisters(x: Six, v: Element)
    ensures Step(RegisterOf(x), SymbolOf(v)) == RegisterOf(StepSix(x, v))
  {
    RegisterSplit(x, v);
    ReduceRegisters(x, Six(x.x1, x.x2, x.x3, x.x4, x.x5, v), 5);
  }

  // ---------- A step over the field ----------

  const ZERO_SIX := Six(ZERO, ZERO, ZERO, ZERO, ZERO, ZERO)

  function Product(e: Element, c: Six): Six {
    Six(Mul(e, c.x0), Mul(e, c.x1), Mul(e, c.x2), Mul(e, c.x3), Mul(e, c.x4), Mul(e, c.x5))
  }

  function SixPower(x: Six, n: nat): Six {
    Six(TimesXTo(x.x0, n), TimesXTo(x.x1, n), TimesXTo(x.x2, n),
        TimesXTo(x.x3, n), TimesXTo(x.x4, n), TimesXTo(x.x5, n))
  }

  lemma SixPowerNext(x: Six, n: nat)
    ensures SixPower(x, 0) == x && SixPower(x, n + 1) == SixTimesX(SixPower(x, n))
  {
  }

  lemma CoefficientsArePowers(i: nat)
    requires i < 5
    ensures Coefficients(i) == SixPower(Coefficients(0), i)
  {
    PowersOf(Coefficients(0), i);
  }

  lemma {:induction false} PowersOf(c: Six, i: nat)
    requires i < 5 && c == Coefficients(0)
    ensures Coefficients(i) == SixPower(c, i)
  {
    if i == 0 {
      SixPowerNext(c, 0);
    } else {
      PowersOf(c, i - 1);
      NextMultiple(i - 1);
      SixPowerNext(c, i - 1);
    }
  }

  function SixSum(e: Element, x: Six, n: nat): Six
    requires n <= 5
  {
    Six(Sum(e, x.x0, n), Sum(e, x.x1, n), Sum(e, x.x2, n), Sum(e, x.x3, n), Sum(e, x.x4, n), Sum(e, x.x5, n))
  }

  lemma AddSixLaws(x: Six, y: Six, z: Six)
    ensures AddSix(AddSix(x, y), z) == AddSix(x, AddSix(y, z)) && AddSix(x, ZERO_SIX) == x
  {
    AddLaws(x.x0, y.x0, z.x0);
    AddLaws(x.x1, y.x1, z.x1);
    AddLaws(x.x2, y.x2, z.x2);
    AddLaws(x.x3, y.x3, z.x3);
    AddLaws(x.x4, y.x4, z.x4);
    AddLaws(x.x5, y.x5, z.x5);
  }

  lemma {:induction false} ReduceIsSum(e: Element, x: Six, n: nat)
    requires n <= 5
    ensures ReduceSix(e, x, n) == AddSix(x, SixSum(e, Coefficients(0), n))
  {
    if n == 0 {
      AddSixLaws(x, ZERO_SIX, ZERO_SIX);
    } else {
      ReduceIsSum(e, x, n - 1);
      CoefficientsArePowers(n - 1);
      AddSixLaws(x, SixSum(e, Coefficients(0), n - 1), Coefficients(n - 1));
    }
  }

  /** One step: shift by one symbol and add the outgoing symbol times the generator polynomial. */
  lemma StepIsProduct(x: Six, v: Element)
    ensures StepSix(x, v) == AddSix(Six(x.x1, x.x2, x.x3, x.x4, x.x5, v), Product(x.x0, Coefficients(0)))
  {
    var c := Coefficients(0);
    ReduceIsSum(x.x0, Six(x.x1, x.x2, x.x3, x.x4, x.x5, v), 5);
    MulIsSum(x.x0, c.x0);
    MulIsSum(x.x0, c.x1);
    MulIsSum(x.x0, c.x2);
    MulIsSum(x.x0, c.x3);
    MulIsSum(x.x0, c.x4);
    MulIsSum(x.x0, c.x5);
  }
}
