/** The first published address, computed symbol by symbol. One such value fixes the checksum constant, the generator
    polynomial, the expansion of the human-readable part, the alphabet and the bit order from outside. */
module PublishedAddress {
  import opened Bytes
  import opened BitGroups
  import opened Bech32m
  import opened Bech32Text
  import opened Gf32
  import opened CheckField
  import opened Address

  const E00 := Element(false, false, false, false, false)
  const E01 := Element(false, false, false, false, true)
  const E02 := Element(false, false, false, true, false)
  const E03 := Element(false, false, false, true, true)
  const E04 := Element(false, false, true, false, false)
  const E05 := Element(false, false, true, false, true)
  const E06 := Element(false, false, true, true, false)
  const E07 := Element(false, false, true, true, true)
  const E08 := Element(false, true, false, false, false)
  const E09 := Element(false, true, false, false, true)
  const E10 := Element(false, true, false, true, false)
  const E11 := Element(false, true, false, true, true)
  const E12 := Element(false, true, true, false, false)
  const E13 := Element(false, true, true, false, true)
  const E14 := Element(false, true, true, true, false)
  const E15 := Element(false, true, true, true, true)
  const E16 := Element(true, false, false, false, false)
  const E17 := Element(true, false, false, false, true)
  const E18 := Element(true, false, false, true, false)
  const E19 := Element(true, false, false, true, true)
  const E20 := Element(true, false, true, false, false)
  const E21 := Element(true, false, true, false, true)
  const E22 := Element(true, false, true, true, false)
  const E23 := Element(true, false, true, true, true)
  const E24 := Element(true, true, false, false, false)
  const E25 := Element(true, true, false, false, true)
  const E26 := Element(true, true, false, true, false)
  const E27 := Element(true, true, false, true, true)
  const E28 := Element(true, true, true, false, false)
  const E29 := Element(true, true, true, false, true)
  const E30 := Element(true, true, true, true, false)
  const E31 := Element(true, true, true, true, true)

  // ---------- One step, written out ----------

  function Times18(t: Element): Element {
    Element(((t.b4 != t.b3) != t.b2) != t.b0,
            (t.b3 != t.b2) != t.b1,
            t.b3 != t.b1,
            (t.b4 != t.b2) != t.b0,
            (t.b4 != t.b3) != t.b1)
  }

  lemma ProductBy18(t: Element)
    ensures Mul(t, E18) == Times18(t)
  {
    MulUnfolds(t, E18);
  }

  function Times20(t: Element): Element {
    Element(t.b0, t.b4, t.b3 != t.b0, t.b2, t.b1)
  }

  lemma ProductBy20(t: Element)
    ensures Mul(t, E20) == Times20(t)
  {
    MulUnfolds(t, E20);
  }

  function Times21(t: Element): Element {
    Element(t.b4 != t.b0, t.b4 != t.b3, (t.b3 != t.b2) != t.b0, t.b2 != t.b1, t.b1 != t.b0)
  }

  lemma ProductBy21(t: Element)
    ensures Mul(t, E21) == Times21(t)
  {
    MulUnfolds(t, E21);
  }

  function Times22(t: Element): Element {
    Element(t.b3 != t.b0, t.b2, (t.b3 != t.b1) != t.b0, t.b2 != t.b0, t.b4 != t.b1)
  }

  lemma ProductBy22(t: Element)
    ensures Mul(t, E22) == Times22(t)
  {
    MulUnfolds(t, E22);
  }

  function Times29(t: Element): Element {
    Element(((t.b4 != t.b3) != t.b1) != t.b0,
            (t.b3 != t.b2) != t.b0,
            ((t.b4 != t.b3) != t.b2) != t.b0,
            (t.b3 != t.b2) != t.b1,
            ((t.b4 != t.b2) != t.b1) != t.b0)
  }

  lemma ProductBy29(t: Element)
    ensures Mul(t, E29) == Times29(t)
  {
    MulUnfolds(t, E29);
  }

  /** The step of the checksum with the products by the coefficients of the generator written out. */
  function Shift(x: Six, v: Element): Six {
    var t := x.x0;
    Six(Add(x.x1, Times29(t)), Add(x.x2, Times22(t)), Add(x.x3, Times20(t)),
        Add(x.x4, Times21(t)), Add(x.x5, Times29(t)), Add(v, Times18(t)))
  }

  lemma ShiftIsStep(x: Six, v: Element)
    ensures Shift(x, v) == StepSix(x, v)
  {
    var t := x.x0;
    StepIsProduct(x, v);
    ProductBy18(t);
    ProductBy20(t);
    ProductBy21(t);
    ProductBy22(t);
    ProductBy29(t);
  }

  /** The first 28 bytes of the SHA-256 of the published key, as one number. */
  const DIGEST := 0x1df87c31358ef3e2ac32fd77d208d0871ac0c4d5ec6c21917ec24efd

  // ---------- Words of field elements ----------

  function Symbols(w: seq<Element>): (r: seq<Symbol>)
    ensures |r| == |w|
  {
    seq(|w|, i requires 0 <= i < |w| => SymbolOf(w[i]))
  }

  /** The checksum register after a word. */
  function Run(x: Six, w: seq<Element>): Six
    decreases |w|
  {
    if w == [] then x else Run(Shift(x, w[0]), w[1..])
  }

  /** The number `n` with the bits of a word appended. */
  function Number(n: nat, w: seq<Element>): nat
    decreases |w|
  {
    if w == [] then n else Number(Append(n, w[0]), w[1..])
  }

  lemma {:induction false} RunIsFold(x: Six, w: seq<Element>)
    ensures Fold(RegisterOf(x), Symbols(w)) == RegisterOf(Run(x, w))
    decreases |w|
  {
    if w != [] {
      StepRegisters(x, w[0]);
      ShiftIsStep(x, w[0]);
      RunIsFold(Shift(x, w[0]), w[1..]);
      assert Symbols(w)[1..] == Symbols(w[1..]);
    }
  }

  lemma {:induction false} NumberIsValue(s: seq<bool>, w: seq<Element>)
    ensures ValueOf(s + SymbolsToBits(Symbols(w))) == Number(ValueOf(s), w)
    decreases |w|
  {
    if w == [] {
      assert s + [] == s;
    } else {
      ValueAppend(s, w[0]);
      NumberIsValue(s + SymbolOf(w[0]), w[1..]);
      assert Symbols(w)[1..] == Symbols(w[1..]);
      ConcatAssoc(s, SymbolOf(w[0]), SymbolsToBits(Symbols(w[1..])));
    }
  }

  lemma {:induction false} RunConcat(x: Six, v: seq<Element>, w: seq<Element>)
    ensures Run(x, v + w) == Run(Run(x, v), w)
    decreases |v|
  {
    if v == [] {
      assert v + w == w;
    } else {
      assert (v + w)[1..] == v[1..] + w;
      RunConcat(Shift(x, v[0]), v[1..], w);
    }
  }

  lemma {:induction false} NumberConcat(n: nat, v: seq<Element>, w: seq<Element>)
    ensures Number(n, v + w) == Number(Number(n, v), w)
    decreases |v|
  {
    if v == [] {
      assert v + w == w;
    } else {
      assert (v + w)[1..] == v[1..] + w;
      NumberConcat(Append(n, v[0]), v[1..], w);
    }
  }

  lemma TextConcat(v: seq<Symbol>, w: seq<Symbol>)
    ensures ToText(v + w) == ToText(v) + ToText(w)
  {
  }

  lemma SymbolsConcat(v: seq<Element>, w: seq<Element>)
    ensures Symbols(v + w) == Symbols(v) + Symbols(w)
  {
  }

  /** The word takes the register from `x` to `y` and the number `n` to `m`, and reads as `text`. */
  predicate Spells(x: Six, n: nat, w: seq<Element>, y: Six, m: nat, text: string) {
    Run(x, w) == y && Number(n, w) == m && ToText(Symbols(w)) == text
  }

  lemma Join(x: Six, n: nat, v: seq<Element>, y: Six, m: nat, text: string,
             w: seq<Element>, z: Six, k: nat, more: string)
    requires Spells(x, n, v, y, m, text) && Spells(y, m, w, z, k, more)
    ensures Spells(x, n, v + w, z, k, text + more)
  {
    RunConcat(x, v, w);
    NumberConcat(n, v, w);
    SymbolsConcat(v, w);
    TextConcat(Symbols(v), Symbols(w));
  }

  lemma One(x: Six, n: nat, e: Element, d: nat) returns (w: seq<Element>)
    requires Append(0, e) == d < 32
    ensures w == [e] && Spells(x, n, w, Shift(x, e), 32 * n + d, [ALPHABET[d]])
  {
    w := [e];
    assert w[1..] == [];
    assert Run(x, w) == Run(Shift(x, e), []);
    assert Number(n, w) == Number(Append(n, e), []);
    CharOf(e);
    assert Symbols(w) == [SymbolOf(e)];
    assert ToText([SymbolOf(e)]) == [SymbolChar(SymbolOf(e))];
  }

  lemma CharOf(e: Element)
    ensures SymbolValue(SymbolOf(e)) == Append(0, e)
  {
    ValueAppend([], e);
    assert [] + SymbolOf(e) == SymbolOf(e);
  }

  /** One more symbol. */
  lemma More(x: Six, n: nat, v: seq<Element>, y: Six, m: nat, text: string, e: Element, d: nat)
    returns (w: seq<Element>)
    requires Spells(x, n, v, y, m, text) && Append(0, e) == d < 32
    ensures w == v + [e] && Spells(x, n, w, Shift(y, e), 32 * m + d, text + [ALPHABET[d]])
  {
    var last := One(y, m, e, d);
    w := v + last;
    Join(x, n, v, y, m, text, last, Shift(y, e), 32 * m + d, [ALPHABET[d]]);
  }

  /** Several symbols at once. */
  lemma Chain<T>(c0: T, c1: T, c2: T, c3: T, c4: T)
    ensures [c0] + [c1] + [c2] + [c3] + [c4] == [c0, c1, c2, c3, c4]
  {
  }

  /** Five symbols at once. */
  lemma Spell(x: Six, n: nat, e0: Element, e1: Element, e2: Element, e3: Element, e4: Element,
              d0: nat, d1: nat, d2: nat, d3: nat, d4: nat,
              c0: char, c1: char, c2: char, c3: char, c4: char)
    returns (w: seq<Element>)
    requires Append(0, e0) == d0 < 32 && ALPHABET[d0] == c0
    requires Append(0, e1) == d1 < 32 && ALPHABET[d1] == c1
    requires Append(0, e2) == d2 < 32 && ALPHABET[d2] == c2
    requires Append(0, e3) == d3 < 32 && ALPHABET[d3] == c3
    requires Append(0, e4) == d4 < 32 && ALPHABET[d4] == c4
    ensures |w| == 5 && Spells(x, n, w, Shift(Shift(Shift(Shift(Shift(x, e0), e1), e2), e3), e4),
                             32 * (32 * (32 * (32 * (32 * n + d0) + d1) + d2) + d3) + d4, [c0, c1, c2, c3, c4])
  {
    w := One(x, n, e0, d0);
    w := More(x, n, w, Shift(x, e0),
              32 * n + d0, [c0], e1, d1);
    w := More(x, n, w, Shift(Shift(x, e0), e1),
              32 * (32 * n + d0) + d1, [c0] + [c1], e2, d2);
    w := More(x, n, w, Shift(Shift(Shift(x, e0), e1), e2),
              32 * (32 * (32 * n + d0) + d1) + d2, [c0] + [c1] + [c2], e3, d3);
    w := More(x, n, w, Shift(Shift(Shift(Shift(x, e0), e1), e2), e3),
              32 * (32 * (32 * (32 * n + d0) + d1) + d2) + d3, [c0] + [c1] + [c2] + [c3], e4, d4);
    Chain(c0, c1, c2, c3, c4);
  }

  // ---------- The symbols of the address ----------

  lemma StepsData0(x: Six) returns (e0: Element, e1: Element, e2: Element, e3: Element, e4: Element, y: Six)
    requires x == Six(E02, E13, E26, E31, E10, E15)
    ensures Append(0, e0) == 3 && Append(0, e1) == 23 && Append(0, e2) == 28
    ensures Append(0, e3) == 7 && Append(0, e4) == 24
    ensures y == Six(E20, E09, E02, E22, E09, E08) && Shift(Shift(Shift(Shift(Shift(x, e0), e1), e2), e3), e4) == y
  {
    e0, e1, e2, e3, e4, y := E03, E23, E28, E07, E24, Six(E20, E09, E02, E22, E09, E08);
    assert Shift(Six(E02, E13, E26, E31, E10, E15), E03) == Six(E30, E31, E30, E09, E28, E14);
    assert Shift(Six(E30, E31, E30, E09, E28, E14), E23) == Six(E08, E04, E06, E13, E25, E14);
    assert Shift(Six(E08, E04, E06, E13, E25, E14), E28) == Six(E26, E18, E09, E21, E16, E01);
    assert Shift(Six(E26, E18, E09, E21, E16, E01), E07) == Six(E10, E25, E24, E07, E25, E04);
    assert Shift(Six(E10, E25, E24, E07, E25, E04), E24) == Six(E20, E09, E02, E22, E09, E08);
  }

  lemma SpellData0(x: Six, n: nat) returns (w: seq<Element>, y: Six, m: nat)
    requires x == Six(E02, E13, E26, E31, E10, E15) && n == 0x0
    ensures |w| == 5 && Spells(x, n, w, y, m, "rhu8c")
    ensures y == Six(E20, E09, E02, E22, E09, E08) && m == 0x3bf0f8
  {
    var e0, e1, e2, e3, e4, z := StepsData0(x);
    w := Spell(x, n, e0, e1, e2, e3, e4, 3, 23, 28, 7, 24, 'r', 'h', 'u', '8', 'c');
    y, m := z, 0x3bf0f8;
  }

  lemma StepsData1(x: Six) returns (e0: Element, e1: Element, e2: Element, e3: Element, e4: Element, y: Six)
    requires x == Six(E20, E09, E02, E22, E09, E08)
    ensures Append(0, e0) == 12 && Append(0, e1) == 9 && Append(0, e2) == 21
    ensures Append(0, e3) == 17 && Append(0, e4) == 27
    ensures y == Six(E20, E00, E07, E13, E25, E08) && Shift(Shift(Shift(Shift(Shift(x, e0), e1), e2), e3), e4) == y
  {
    e0, e1, e2, e3, e4, y := E12, E09, E21, E17, E27, Six(E20, E00, E07, E13, E25, E08);
    assert Shift(Six(E20, E09, E02, E22, E09, E08), E12) == Six(E19, E09, E28, E23, E18, E05);
    assert Shift(Six(E19, E09, E28, E23, E18, E05), E09) == Six(E18, E14, E10, E28, E30, E05);
    assert Shift(Six(E18, E14, E10, E28, E30, E05), E21) == Six(E08, E14, E21, E05, E03, E11);
    assert Shift(Six(E08, E14, E21, E05, E03, E11), E17) == Six(E16, E01, E01, E15, E21, E12);
    assert Shift(Six(E16, E01, E01, E15, E21, E12), E27) == Six(E20, E00, E07, E13, E25, E08);
  }

  lemma SpellData1(x: Six, n: nat) returns (w: seq<Element>, y: Six, m: nat)
    requires x == Six(E20, E09, E02, E22, E09, E08) && n == 0x3bf0f8
    ensures |w| == 5 && Spells(x, n, w, y, m, "vf43m")
    ensures y == Six(E20, E00, E07, E13, E25, E08) && m == 0x77e1f0c4d63b
  {
    var e0, e1, e2, e3, e4, z := StepsData1(x);
    w := Spell(x, n, e0, e1, e2, e3, e4, 12, 9, 21, 17, 27, 'v', 'f', '4', '3', 'm');
    y, m := z, 0x77e1f0c4d63b;
  }

  lemma StepsData2(x: Six) returns (e0: Element, e1: Element, e2: Element, e3: Element, e4: Element, y: Six)
    requires x == Six(E20, E00, E07, E13, E25, E08)
    ensures Append(0, e0) == 25 && Append(0, e1) == 30 && Append(0, e2) == 5
    ensures Append(0, e3) == 11 && Append(0, e4) == 1
    ensures y == Six(E11, E12, E10, E31, E18, E20) && Shift(Shift(Shift(Shift(Shift(x, e0), e1), e2), e3), e4) == y
  {
    e0, e1, e2, e3, e4, y := E25, E30, E05, E11, E01, Six(E11, E12, E10, E31, E18, E20);
    assert Shift(Six(E20, E00, E07, E13, E25, E08), E25) == Six(E26, E12, E07, E07, E18, E16);
    assert Shift(Six(E26, E12, E07, E07, E18, E16), E30) == Six(E20, E23, E10, E05, E08, E29);
    assert Shift(Six(E20, E23, E10, E05, E08, E29), E05) == Six(E13, E01, E15, E22, E07, E12);
    assert Shift(Six(E13, E01, E15, E22, E07, E12), E11) == Six(E13, E07, E04, E24, E00, E30);
    assert Shift(Six(E13, E07, E04, E24, E00, E30), E01) == Six(E11, E12, E10, E31, E18, E20);
  }

  lemma SpellData2(x: Six, n: nat) returns (w: seq<Element>, y: Six, m: nat)
    requires x == Six(E20, E00, E07, E13, E25, E08) && n == 0x77e1f0c4d63b
    ensures |w| == 5 && Spells(x, n, w, y, m, "e79tp")
    ensures y == Six(E11, E12, E10, E31, E18, E20) && m == 0xefc3e189ac779f1561
  {
    var e0, e1, e2, e3, e4, z := StepsData2(x);
    w := Spell(x, n, e0, e1, e2, e3, e4, 25, 30, 5, 11, 1, 'e', '7', '9', 't', 'p');
    y, m := z, 0xefc3e189ac779f1561;
  }

  lemma StepsData3(x: Six) returns (e0: Element, e1: Element, e2: Element, e3: Element, e4: Element, y: Six)
    requires x == Six(E11, E12, E10, E31, E18, E20)
    ensures Append(0, e0) == 18 && Append(0, e1) == 31 && Append(0, e2) == 21
    ensures Append(0, e3) == 27 && Append(0, e4) == 29
    ensures y == Six(E17, E01, E18, E31, E22, E16) && Shift(Shift(Shift(Shift(Shift(x, e0), e1), e2), e3), e4) == y
  {
    e0, e1, e2, e3, e4, y := E18, E31, E21, E27, E29, Six(E17, E01, E18, E31, E22, E16);
    assert Shift(Six(E11, E12, E10, E31, E18, E20), E18) == Six(E28, E13, E14, E08, E04, E16);
    assert Shift(Six(E28, E13, E14, E08, E04, E16), E31) == Six(E09, E17, E06, E22, E20, E11);
    assert Shift(Six(E09, E17, E06, E22, E20, E11), E21) == Six(E18, E04, E06, E13, E08, E26);
    assert Shift(Six(E18, E04, E06, E13, E08, E26), E27) == Six(E02, E02, E04, E19, E28, E05);
    assert Shift(Six(E02, E02, E04, E19, E28, E05), E29) == Six(E17, E01, E18, E31, E22, E16);
  }

  lemma SpellData3(x: Six, n: nat) returns (w: seq<Element>, y: Six, m: nat)
    requires x == Six(E11, E12, E10, E31, E18, E20) && n == 0xefc3e189ac779f1561
    ensures |w| == 5 && Spells(x, n, w, y, m, "jl4ma")
    ensures y == Six(E17, E01, E18, E31, E22, E16) && m == 0x1df87c31358ef3e2ac32fd77d
  {
    var e0, e1, e2, e3, e4, z := StepsData3(x);
    w := Spell(x, n, e0, e1, e2, e3, e4, 18, 31, 21, 27, 29, 'j', 'l', '4', 'm', 'a');
    y, m := z, 0x1df87c31358ef3e2ac32fd77d;
  }

  lemma StepsData4(x: Six) returns (e0: Element, e1: Element, e2: Element, e3: Element, e4: Element, y: Six)
    requires x == Six(E17, E01, E18, E31, E22, E16)
    ensures Append(0, e0) == 4 && Append(0, e1) == 2 && Append(0, e2) == 6
    ensures Append(0, e3) == 16 && Append(0, e4) == 16
    ensures y == Six(E18, E16, E12, E15, E15, E22) && Shift(Shift(Shift(Shift(Shift(x, e0), e1), e2), e3), e4) == y
  {
    e0, e1, e2, e3, e4, y := E04, E02, E06, E16, E16, Six(E18, E16, E12, E15, E15, E22);
    assert Shift(Six(E17, E01, E18, E31, E22, E16), E04) == Six(E09, E05, E03, E27, E24, E05);
    assert Shift(Six(E09, E05, E03, E27, E24, E05), E02) == Six(E06, E01, E11, E01, E06, E13);
    assert Shift(Six(E06, E01, E11, E01, E06, E13), E06) == Six(E29, E04, E02, E03, E17, E17);
    assert Shift(Six(E29, E04, E02, E03, E17, E17), E16) == Six(E29, E11, E25, E22, E08, E22);
    assert Shift(Six(E29, E11, E25, E22, E08, E22), E16) == Six(E18, E16, E12, E15, E15, E22);
  }

  lemma SpellData4(x: Six, n: nat) returns (w: seq<Element>, y: Six, m: nat)
    requires x == Six(E17, E01, E18, E31, E22, E16) && n == 0x1df87c31358ef3e2ac32fd77d
    ensures |w| == 5 && Spells(x, n, w, y, m, "yzxss")
    ensures y == Six(E18, E16, E12, E15, E15, E22) && m == 0x3bf0f8626b1de7c55865faefa411a10
  {
    var e0, e1, e2, e3, e4, z := StepsData4(x);
    w := Spell(x, n, e0, e1, e2, e3, e4, 4, 2, 6, 16, 16, 'y', 'z', 'x', 's', 's');
    y, m := z, 0x3bf0f8626b1de7c55865faefa411a10;
  }

  lemma StepsData5(x: Six) returns (e0: Element, e1: Element, e2: Element, e3: Element, e4: Element, y: Six)
    requires x == Six(E18, E16, E12, E15, E15, E22)
    ensures Append(0, e0) == 28 && Append(0, e1) == 13 && Append(0, e2) == 12
    ensures Append(0, e3) == 1 && Append(0, e4) == 17
    ensures y == Six(E06, E27, E24, E16, E24, E27) && Shift(Shift(Shift(Shift(Shift(x, e0), e1), e2), e3), e4) == y
  {
    e0, e1, e2, e3, e4, y := E28, E13, E12, E01, E17, Six(E06, E27, E24, E16, E24, E27);
    assert Shift(Six(E18, E16, E12, E15, E15, E22), E28) == Six(E22, E08, E06, E20, E16, E02);
    assert Shift(Six(E22, E08, E06, E20, E16, E02), E13) == Six(E01, E08, E31, E13, E11, E09);
    assert Shift(Six(E01, E08, E31, E13, E11, E09), E12) == Six(E21, E09, E25, E30, E20, E30);
    assert Shift(Six(E21, E09, E25, E30, E20, E30), E01) == Six(E14, E04, E00, E31, E25, E26);
    assert Shift(Six(E14, E04, E00, E31, E25, E26), E17) == Six(E06, E27, E24, E16, E24, E27);
  }

  lemma SpellData5(x: Six, n: nat) returns (w: seq<Element>, y: Six, m: nat)
    requires x == Six(E18, E16, E12, E15, E15, E22) && n == 0x3bf0f8626b1de7c55865faefa411a10
    ensures |w| == 5 && Spells(x, n, w, y, m, "udvp3")
    ensures y == Six(E06, E27, E24, E16, E24, E27) && m == 0x77e1f0c4d63bcf8ab0cbf5df4823421c6b031
  {
    var e0, e1, e2, e3, e4, z := StepsData5(x);
    w := Spell(x, n, e0, e1, e2, e3, e4, 28, 13, 12, 1, 17, 'u', 'd', 'v', 'p', '3');
    y, m := z, 0x77e1f0c4d63bcf8ab0cbf5df4823421c6b031;
  }

  lemma StepsData6(x: Six) returns (e0: Element, e1: Element, e2: Element, e3: Element, e4: Element, y: Six)
    requires x == Six(E06, E27, E24, E16, E24, E27)
    ensures Append(0, e0) == 6 && Append(0, e1) == 21 && Append(0, e2) == 29
    ensures Append(0, e3) == 17 && Append(0, e4) == 22
    ensures y == Six(E02, E09, E10, E24, E03, E06) && Shift(Shift(Shift(Shift(Shift(x, e0), e1), e2), e3), e4) == y
  {
    e0, e1, e2, e3, e4, y := E06, E21, E29, E17, E22, Six(E02, E09, E10, E24, E03, E06);
    assert Shift(Six(E06, E27, E24, E16, E24, E27), E06) == Six(E07, E23, E19, E29, E07, E17);
    assert Shift(Six(E07, E23, E19, E29, E07, E17), E21) == Six(E22, E10, E10, E23, E16, E16);
    assert Shift(Six(E22, E10, E10, E23, E16, E16), E29) == Six(E03, E04, E28, E13, E25, E25);
    assert Shift(Six(E03, E04, E28, E13, E25, E25), E17) == Six(E10, E15, E24, E15, E23, E14);
    assert Shift(Six(E10, E15, E24, E15, E23, E14), E22) == Six(E02, E09, E10, E24, E03, E06);
  }

  lemma SpellData6(x: Six, n: nat) returns (w: seq<Element>, y: Six, m: nat)
    requires x == Six(E06, E27, E24, E16, E24, E27) && n == 0x77e1f0c4d63bcf8ab0cbf5df4823421c6b031
    ensures |w| == 5 && Spells(x, n, w, y, m, "x4a3k")
    ensures y == Six(E02, E09, E10, E24, E03, E06) && m == 0xefc3e189ac779f156197ebbe90468438d60626af636
  {
    var e0, e1, e2, e3, e4, z := StepsData6(x);
    w := Spell(x, n, e0, e1, e2, e3, e4, 6, 21, 29, 17, 22, 'x', '4', 'a', '3', 'k');
    y, m := z, 0xefc3e189ac779f156197ebbe90468438d60626af636;
  }

  lemma StepsData7(x: Six) returns (e0: Element, e1: Element, e2: Element, e3: Element, e4: Element, y: Six)
    requires x == Six(E02, E09, E10, E24, E03, E06)
    ensures Append(0, e0) == 2 && Append(0, e1) == 3 && Append(0, e2) == 4
    ensures Append(0, e3) == 11 && Append(0, e4) == 30
    ensures y == Six(E05, E27, E21, E01, E28, E25) && Shift(Shift(Shift(Shift(Shift(x, e0), e1), e2), e3), e4) == y
  {
    e0, e1, e2, e3, e4, y := E02, E03, E04, E11, E30, Six(E05, E27, E21, E01, E28, E25);
    assert Shift(Six(E02, E09, E10, E24, E03, E06), E02) == Six(E26, E15, E25, E00, E21, E15);
    assert Shift(Six(E26, E15, E25, E00, E21, E15), E03) == Six(E23, E09, E13, E02, E23, E00);
    assert Shift(Six(E23, E09, E13, E02, E23, E00), E04) == Six(E29, E21, E29, E31, E20, E18);
    assert Shift(Six(E29, E21, E29, E31, E20, E18), E11) == Six(E12, E20, E05, E19, E11, E13);
    assert Shift(Six(E12, E20, E05, E19, E11, E13), E30) == Six(E05, E27, E21, E01, E28, E25);
  }

  lemma SpellData7(x: Six, n: nat) returns (w: seq<Element>, y: Six, m: nat)
    requires x == Six(E02, E09, E10, E24, E03, E06) && n == 0xefc3e189ac779f156197ebbe90468438d60626af636
    ensures |w| == 5 && Spells(x, n, w, y, m, "zryt7")
    ensures y == Six(E05, E27, E21, E01, E28, E25) && m == 0x1df87c31358ef3e2ac32fd77d208d0871ac0c4d5ec6c21917e
  {
    var e0, e1, e2, e3, e4, z := StepsData7(x);
    w := Spell(x, n, e0, e1, e2, e3, e4, 2, 3, 4, 11, 30, 'z', 'r', 'y', 't', '7');
    y, m := z, 0x1df87c31358ef3e2ac32fd77d208d0871ac0c4d5ec6c21917e;
  }

  lemma StepsData8(x: Six) returns (e0: Element, e1: Element, e2: Element, e3: Element, e4: Element, y: Six)
    requires x == Six(E05, E27, E21, E01, E28, E25)
    ensures Append(0, e0) == 24 && Append(0, e1) == 9 && Append(0, e2) == 7
    ensures Append(0, e3) == 15 && Append(0, e4) == 26
    ensures y == Six(E16, E12, E09, E15, E19, E18) && Shift(Shift(Shift(Shift(Shift(x, e0), e1), e2), e3), e4) == y
  {
    e0, e1, e2, e3, e4, y := E24, E09, E07, E15, E26, Six(E16, E12, E09, E15, E19, E18);
    assert Shift(Six(E05, E27, E21, E01, E28, E25), E24) == Six(E09, E09, E23, E15, E11, E16);
    assert Shift(Six(E09, E09, E23, E15, E11, E16), E09) == Six(E10, E21, E31, E18, E19, E06);
    assert Shift(Six(E10, E21, E31, E18, E19, E06), E07) == Six(E24, E14, E23, E28, E11, E23);
    assert Shift(Six(E24, E14, E23, E28, E11, E23), E15) == Six(E05, E02, E16, E31, E28, E01);
    assert Shift(Six(E05, E02, E16, E31, E28, E01), E26) == Six(E16, E12, E09, E15, E19, E18);
  }

  lemma SpellData8(x: Six, n: nat) returns (w: seq<Element>, y: Six, m: nat)
    requires x == Six(E05, E27, E21, E01, E28, E25) && n == 0x1df87c31358ef3e2ac32fd77d208d0871ac0c4d5ec6c21917e
    ensures |w| == 5 && Spells(x, n, w, y, m, "cf806")
    ensures y == Six(E16, E12, E09, E15, E19, E18) && m == 0x3bf0f8626b1de7c55865faefa411a10e358189abd8d84322fd849dfa
  {
    var e0, e1, e2, e3, e4, z := StepsData8(x);
    w := Spell(x, n, e0, e1, e2, e3, e4, 24, 9, 7, 15, 26, 'c', 'f', '8', '0', '6');
    y, m := z, 0x3bf0f8626b1de7c55865faefa411a10e358189abd8d84322fd849dfa;
  }

  lemma StepsData9(x: Six) returns (e0: Element, e1: Element, e2: Element, e3: Element, e4: Element, y: Six)
    requires x == Six(E16, E12, E09, E15, E19, E18)
    ensures Append(0, e0) == 1 && Append(0, e1) == 25 && Append(0, e2) == 19
    ensures Append(0, e3) == 1 && Append(0, e4) == 2
    ensures y == Six(E29, E12, E21, E10, E11, E28) && Shift(Shift(Shift(Shift(Shift(x, e0), e1), e2), e3), e4) == y
  {
    e0, e1, e2, e3, e4, y := E01, E25, E19, E01, E02, Six(E29, E12, E21, E10, E11, E28);
    assert Shift(Six(E16, E12, E09, E15, E19, E18), E01) == Six(E25, E08, E07, E11, E07, E18);
    assert Shift(Six(E25, E08, E07, E11, E07, E18), E25) == Six(E30, E04, E19, E06, E04, E05);
    assert Shift(Six(E30, E04, E19, E06, E04, E05), E19) == Six(E19, E09, E09, E21, E18, E10);
    assert Shift(Six(E19, E09, E09, E21, E18, E10), E01) == Six(E18, E27, E08, E28, E17, E13);
    assert Shift(Six(E18, E27, E08, E28, E17, E13), E02) == Six(E29, E12, E21, E10, E11, E28);
  }

  lemma SpellData9(x: Six, n: nat) returns (w: seq<Element>, y: Six, m: nat)
    requires x == Six(E16, E12, E09, E15, E19, E18) && n == 0x0
    ensures |w| == 5 && Spells(x, n, w, y, m, "penpz")
    ensures y == Six(E29, E12, E21, E10, E11, E28) && m == 0x1ccc22
  {
    var e0, e1, e2, e3, e4, z := StepsData9(x);
    w := Spell(x, n, e0, e1, e2, e3, e4, 1, 25, 19, 1, 2, 'p', 'e', 'n', 'p', 'z');
    y, m := z, 0x1ccc22;
  }

  /** The 45 data symbols. */
  lemma SpellData(x: Six) returns (w: seq<Element>, y: Six, m: nat)
    requires x == Six(E02, E13, E26, E31, E10, E15)
    ensures |w| == 45
    ensures Spells(x, 0, w, y, m,
                   "rhu8c" + "vf43m" + "e79tp" + "jl4ma" + "yzxss" + "udvp3" + "x4a3k" + "zryt7" + "cf806")
    ensures y == Six(E16, E12, E09, E15, E19, E18) && m == 2 * DIGEST
  {
    var w0, x0, n0 := SpellData0(x, 0);
    var w1, x1, n1 := SpellData1(x0, n0);
    var w2, x2, n2 := SpellData2(x1, n1);
    var w3, x3, n3 := SpellData3(x2, n2);
    var w4, x4, n4 := SpellData4(x3, n3);
    var w5, x5, n5 := SpellData5(x4, n4);
    var w6, x6, n6 := SpellData6(x5, n5);
    var w7, x7, n7 := SpellData7(x6, n6);
    var w8, x8, n8 := SpellData8(x7, n7);
    Join(x, 0, w0, x0, n0,
         "rhu8c",
         w1, x1, n1, "vf43m");
    Join(x, 0, w0 + w1, x1, n1,
         "rhu8c" + "vf43m",
         w2, x2, n2, "e79tp");
    Join(x, 0, w0 + w1 + w2, x2, n2,
         "rhu8c" + "vf43m" + "e79tp",
         w3, x3, n3, "jl4ma");
    Join(x, 0, w0 + w1 + w2 + w3, x3, n3,
         "rhu8c" + "vf43m" + "e79tp" + "jl4ma",
         w4, x4, n4, "yzxss");
    Join(x, 0, w0 + w1 + w2 + w3 + w4, x4, n4,
         "rhu8c" + "vf43m" + "e79tp" + "jl4ma" + "yzxss",
         w5, x5, n5, "udvp3");
    Join(x, 0, w0 + w1 + w2 + w3 + w4 + w5, x5, n5,
         "rhu8c" + "vf43m" + "e79tp" + "jl4ma" + "yzxss" + "udvp3",
         w6, x6, n6, "x4a3k");
    Join(x, 0, w0 + w1 + w2 + w3 + w4 + w5 + w6, x6, n6,
         "rhu8c" + "vf43m" + "e79tp" + "jl4ma" + "yzxss" + "udvp3" + "x4a3k",
         w7, x7, n7, "zryt7");
    Join(x, 0, w0 + w1 + w2 + w3 + w4 + w5 + w6 + w7, x7, n7,
         "rhu8c" + "vf43m" + "e79tp" + "jl4ma" + "yzxss" + "udvp3" + "x4a3k" + "zryt7",
         w8, x8, n8, "cf806");
    w, y, m := w0 + w1 + w2 + w3 + w4 + w5 + w6 + w7 + w8, x8, n8;
  }

  /** The six checksum symbols. */
  lemma SpellTail(x: Six) returns (w: seq<Element>, y: Six, m: nat)
    requires x == Six(E16, E12, E09, E15, E19, E18)
    ensures |w| == 6 && Spells(x, 0, w, y, m, "penpz9") && NumberOf(y) == 0x2bc830a3
  {
    var v, z, n := SpellData9(x, 0);
    var e;
    e, y := LastStep(z);
    w := More(x, 0, v, z, n, "penpz", e, 5);
    m := 32 * n + 5;
    LastLetter();
  }

  lemma LastLetter()
    ensures "penpz" + [ALPHABET[5]] == "penpz9"
  {
  }

  lemma LastStep(x: Six) returns (e: Element, y: Six)
    requires x == Six(E29, E12, E21, E10, E11, E28)
    ensures Append(0, e) == 5 && Shift(x, e) == y && NumberOf(y) == 0x2bc830a3
  {
    e, y := E05, Six(E21, E28, E16, E12, E05, E03);
    LastNumber(y);
  }

  lemma LastNumber(y: Six)
    requires y == Six(E21, E28, E16, E12, E05, E03)
    ensures NumberOf(y) == 0x2bc830a3
  {
    assert Append(0, y.x0) == 21 && Append(21, y.x1) == 700 && Append(700, y.x2) == 22416;
    assert Append(22416, y.x3) == 717324 && Append(717324, y.x4) == 22954373;
  }

  // ---------- The expansion of the prefix ----------

  lemma SymbolOfNumber(e: Element, n: nat)
    requires Append(0, e) == n
    ensures BitsOf(n, 5) == SymbolOf(e)
  {
    CharOf(e);
    BitsOfValueOf(SymbolOf(e));
  }

  lemma ExpandThree(a: char, b: char, c: char)
    ensures HrpExpand([a, b, c]) == [BitsOf(a as int / 32, 5), BitsOf(b as int / 32, 5), BitsOf(c as int / 32, 5)] +
                                    [ZERO_SYMBOL] +
                                    [BitsOf(a as int % 32, 5), BitsOf(b as int % 32, 5), BitsOf(c as int % 32, 5)]
  {
  }

  /** Three characters with the same high bits, as elements. */
  lemma ExpandElements(a: char, b: char, c: char, h: Element, z: Element, l: Element, m: Element, n: Element)
    requires Append(0, h) == a as int / 32 == b as int / 32 == c as int / 32 && SymbolOf(z) == ZERO_SYMBOL
    requires Append(0, l) == a as int % 32 && Append(0, m) == b as int % 32 && Append(0, n) == c as int % 32
    ensures HrpExpand([a, b, c]) == Symbols([h, h, h, z, l, m, n])
  {
    ExpandThree(a, b, c);
    SymbolOfNumber(h, a as int / 32);
    SymbolOfNumber(l, a as int % 32);
    SymbolOfNumber(m, b as int % 32);
    SymbolOfNumber(n, c as int % 32);
    SevenSymbols(h, z, l, m, n);
  }

  lemma SevenSymbols(a: Element, b: Element, c: Element, d: Element, e: Element)
    ensures [SymbolOf(a), SymbolOf(a), SymbolOf(a)] + [SymbolOf(b)] + [SymbolOf(c), SymbolOf(d), SymbolOf(e)] ==
            Symbols([a, a, a, b, c, d, e])
  {
  }

  lemma RunSnoc(x: Six, w: seq<Element>, e: Element)
    ensures Run(x, w + [e]) == Shift(Run(x, w), e)
  {
    RunConcat(x, w, [e]);
    assert [e][1..] == [];
  }

  lemma RunSeven(x: Six, a: Element, b: Element, c: Element, d: Element, e: Element, f: Element, g: Element)
    ensures Run(x, [a, b, c, d, e, f, g]) == Shift(Shift(Shift(Shift(Shift(Shift(Shift(x, a), b), c), d), e), f), g)
  {
    RunSnoc(x, [], a);
    RunSnoc(x, [] + [a], b);
    RunSnoc(x, [] + [a] + [b], c);
    RunSnoc(x, [] + [a] + [b] + [c], d);
    RunSnoc(x, [] + [a] + [b] + [c] + [d], e);
    RunSnoc(x, [] + [a] + [b] + [c] + [d] + [e], f);
    RunSnoc(x, [] + [a] + [b] + [c] + [d] + [e] + [f], g);
    Seven(a, b, c, d, e, f, g);
  }

  lemma Seven<T>(a: T, b: T, c: T, d: T, e: T, f: T, g: T)
    ensures [] + [a] + [b] + [c] + [d] + [e] + [f] + [g] == [a, b, c, d, e, f, g]
  {
  }

  lemma PrefixSteps(x: Six, w: seq<Element>) returns (y: Six)
    requires x == Six(E00, E00, E00, E00, E00, E01) && w == [E03, E03, E03, E00, E19, E15, E22]
    ensures y == Six(E02, E13, E26, E31, E10, E15) && Run(x, w) == y
  {
    y := Six(E02, E13, E26, E31, E10, E15);
    RunSeven(x, E03, E03, E03, E00, E19, E15, E22);
    assert Shift(Six(E00, E00, E00, E00, E00, E01), E03) == Six(E00, E00, E00, E00, E01, E03);
    assert Shift(Six(E00, E00, E00, E00, E01, E03), E03) == Six(E00, E00, E00, E01, E03, E03);
    assert Shift(Six(E00, E00, E00, E01, E03, E03), E03) == Six(E00, E00, E01, E03, E03, E03);
    assert Shift(Six(E00, E00, E01, E03, E03, E03), E00) == Six(E00, E01, E03, E03, E03, E00);
    assert Shift(Six(E00, E01, E03, E03, E03, E00), E19) == Six(E01, E03, E03, E03, E00, E19);
    assert Shift(Six(E01, E03, E03, E03, E00, E19), E15) == Six(E30, E21, E23, E21, E14, E29);
    assert Shift(Six(E30, E21, E23, E21, E14, E29), E22) == Six(E02, E13, E26, E31, E10, E15);
  }

  lemma PrefixWord() returns (x: Six, w: seq<Element>, y: Six)
    ensures RegisterOf(x) == BitsOf(1, 30) && Symbols(w) == HrpExpand("sov") && Run(x, w) == y
    ensures y == Six(E02, E13, E26, E31, E10, E15)
  {
    x := StartRegister();
    w := [E03, E03, E03, E00, E19, E15, E22];
    y := PrefixSteps(x, w);
    ExpandElements('s', 'o', 'v', E03, E00, E19, E15, E22);
  }

  lemma StartRegister() returns (x: Six)
    ensures x == Six(E00, E00, E00, E00, E00, E01) && RegisterOf(x) == BitsOf(1, 30)
  {
    x := Six(E00, E00, E00, E00, E00, E01);
    StartNumber(x);
    RegisterNumber(x);
  }

  lemma StartNumber(x: Six)
    requires x == Six(E00, E00, E00, E00, E00, E01)
    ensures NumberOf(x) == 1
  {
    assert Append(0, x.x0) == Append(0, x.x1) == Append(0, x.x2) == 0;
    assert Append(0, x.x3) == Append(0, x.x4) == 0 && Append(0, x.x5) == 1;
  }

  lemma AfterPrefix()
    ensures Fold(BitsOf(1, 30), HrpExpand("sov")) == RegisterOf(Six(E02, E13, E26, E31, E10, E15))
  {
    var x, w, y := PrefixWord();
    RunIsFold(x, w);
  }

  // ---------- Bytes as bits of one number ----------

  lemma {:induction false} BytesConcat(a: seq<byte>, b: byte)
    ensures BytesToBits(a + [b]) == BytesToBits(a) + ByteBits(b)
  {
    if a == [] {
      assert [b][1..] == [] && [] + [b] == [b];
    } else {
      BytesConcat(a[1..], b);
      assert (a + [b])[1..] == a[1..] + [b];
    }
  }

  lemma {:induction false} ValueOfConcat(s: seq<bool>, t: seq<bool>)
    ensures ValueOf(s + t) == Pow2(|t|) * ValueOf(s) + ValueOf(t)
  {
    if t == [] {
      assert s + t == s;
    } else {
      var n := |t| - 1;
      assert (s + t)[..|s + t| - 1] == s + t[..n];
      ValueOfConcat(s, t[..n]);
      Bytes.MulAssoc(2, Pow2(n), ValueOf(s));
    }
  }

  /** The bits of bytes are those of their big-endian number. */
  lemma {:induction false} BitsValue(data: seq<byte>)
    ensures ValueOf(BytesToBits(data)) == BeValue(data)
  {
    if data != [] {
      var n := |data| - 1;
      BitsValue(data[..n]);
      BytesConcat(data[..n], data[n]);
      assert data == data[..n] + [data[n]];
      ValueOfConcat(BytesToBits(data[..n]), ByteBits(data[n]));
      assert Pow2(8) == 256;
      ValueOfBitsOf(data[n], 8);
    }
  }

  lemma SameValue(s: seq<bool>, t: seq<bool>)
    requires |s| == |t| && ValueOf(s) == ValueOf(t)
    ensures s == t
  {
    BitsOfValueOf(s);
    BitsOfValueOf(t);
  }

  /** Symbols that make twice the number of the bytes are the padded regrouping of the bytes. */
  lemma SymbolsOfNumber(data: seq<byte>, symbols: seq<Symbol>)
    requires 5 * |symbols| == 8 * |data| + 1 && ValueOf(SymbolsToBits(symbols)) == 2 * BeValue(data)
    ensures ToSymbols(data) == symbols
  {
    var bits := BytesToBits(data);
    BitsValue(data);
    ValueSnoc(bits, false);
    SameValue(SymbolsToBits(symbols), bits + [false]);
    assert Zeros(1) == [false];
    BytesFromBitsIff(SymbolsToBits(symbols), data);
    RegroupingRoundTrip(symbols, data);
  }

  // ---------- The address ----------

  /** The published address is the encoding of the published digest. */
  lemma FirstVector(data: seq<byte>)
    requires |data| == 28 && BeValue(data) == 0x1df87c31358ef3e2ac32fd77d208d0871ac0c4d5ec6c21917ec24efd
    ensures Encode("sov", data) == "sov1rhu8cvf43me79tpjl4mayzxssudvp3x4a3kzryt7cf806penpz9"
  {
    var start := Six(E02, E13, E26, E31, E10, E15);
    var w, x, m := SpellData(start);
    var v, y, k := SpellTail(x);
    var symbols, tail := Symbols(w), Symbols(v);
    assert [] + SymbolsToBits(symbols) == SymbolsToBits(symbols);
    NumberIsValue([], w);
    SymbolsOfNumber(data, symbols);
    Assembled(start, w, x, v, y);
    ChecksumUnique("sov", symbols, tail);
    TextConcat(symbols, tail);
    WholeText(ToText(symbols), ToText(tail));
  }

  lemma Assembled(start: Six, w: seq<Element>, x: Six, v: seq<Element>, y: Six)
    requires start == Six(E02, E13, E26, E31, E10, E15)
    requires Run(start, w) == x && Run(x, v) == y && NumberOf(y) == 0x2bc830a3
    ensures Verifies("sov", Symbols(w) + Symbols(v))
  {
    AfterPrefix();
    RunIsFold(start, w);
    RunIsFold(x, v);
    FoldConcat(RegisterOf(start), Symbols(w), Symbols(v));
    FoldConcat(BitsOf(1, 30), HrpExpand("sov"), Symbols(w) + Symbols(v));
    RegisterNumber(y);
  }

  lemma WholeText(text: string, tail: string)
    requires text == "rhu8c" + "vf43m" + "e79tp" + "jl4ma" + "yzxss" + "udvp3" + "x4a3k" + "zryt7" + "cf806"
    requires tail == "penpz9"
    ensures "sov" + "1" + (text + tail) == "sov1rhu8cvf43me79tpjl4mayzxssudvp3x4a3kzryt7cf806penpz9"
  {
    ManyConcat("sov" + "1", "rhu8c", "vf43m", "e79tp", "jl4ma", "yzxss", "udvp3", "x4a3k", "zryt7", "cf806", tail);
    Letters();
  }

  lemma Letters()
    ensures "sov" + "1" + "rhu8c" + "vf43m" + "e79tp" + "jl4ma" + "yzxss" + "udvp3" +
            "x4a3k" + "zryt7" + "cf806" + "penpz9" ==
            "sov1rhu8cvf43me79tpjl4mayzxssudvp3x4a3kzryt7cf806penpz9"
  {
    FirstLetters();
    MiddleLetters();
    LastLetters();
  }

  lemma FirstLetters()
    ensures "sov" + "1" + "rhu8c" + "vf43m" + "e79tp" == "sov1rhu8cvf43me79tp"
  {
  }

  lemma MiddleLetters()
    ensures "sov1rhu8cvf43me79tp" + "jl4ma" + "yzxss" + "udvp3" ==
            "sov1rhu8cvf43me79tpjl4mayzxssudvp3"
  {
  }

  lemma LastLetters()
    ensures "sov1rhu8cvf43me79tpjl4mayzxssudvp3" + "x4a3k" + "zryt7" + "cf806" + "penpz9" ==
            "sov1rhu8cvf43me79tpjl4mayzxssudvp3x4a3kzryt7cf806penpz9"
  {
  }

  lemma ManyConcat(p: string, a: string, b: string, c: string, d: string, e: string, f: string, g: string,
                   h: string, i: string, t: string)
    ensures p + (a + b + c + d + e + f + g + h + i + t) == p + a + b + c + d + e + f + g + h + i + t
  {
    ConcatAssoc(p, a, b);
    ConcatAssoc(p, a + b, c);
    ConcatAssoc(p, a + b + c, d);
    ConcatAssoc(p, a + b + c + d, e);
    ConcatAssoc(p, a + b + c + d + e, f);
    ConcatAssoc(p, a + b + c + d + e + f, g);
    ConcatAssoc(p, a + b + c + d + e + f + g, h);
    ConcatAssoc(p, a + b + c + d + e + f + g + h, i);
    ConcatAssoc(p, a + b + c + d + e + f + g + h + i, t);
  }

  /** A key with this truncated digest, as the first published key has, gets the first published address. */
  lemma FirstAddress(device: Device, pk: seq<byte>)
    requires BeValue(device.sha256(pk)[..28]) == 0x1df87c31358ef3e2ac32fd77d208d0871ac0c4d5ec6c21917ec24efd
    ensures AddressOf(device, pk) == "sov1rhu8cvf43me79tpjl4mayzxssudvp3x4a3kzryt7cf806penpz9"
  {
    FirstVector(device.sha256(pk)[..28]);
  }
}
