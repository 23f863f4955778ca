/** The Bech32m checksum: BIP-350, section "Bech32m", over the checksum polynomial and human-readable part expansion
    of BIP-173, section "Bech32". The 30-bit checksum register is a sequence of bits, most significant first. */
module Bech32m {
  import opened Bytes
  import opened BitGroups

  type Register = c: seq<bool> | |c| == 30 witness BitsOf(0, 30)

  const BECH32M_CONST: nat := 0x2bc830a3

  const GENERATOR: seq<nat> := [0x3b6a57b2, 0x26508e6d, 0x1ea119fa, 0x3d4233dd, 0x2a1462b3]

  function Generator(i: nat): Register
    requires i < 5
  {
    BitsOf(GENERATOR[i], 30)
  }

  function Xor(x: seq<bool>, y: seq<bool>): (r: seq<bool>)
    requires |x| == |y|
    ensures |r| == |x| && forall i :: 0 <= i < |x| ==> r[i] == (x[i] != y[i])
  {
    seq(|x|, i requires 0 <= i < |x| => x[i] != y[i])
  }

  function XorIf(bit: bool, x: Register, g: Register): Register {
    if bit then Xor(x, g) else x
  }

  /** Adds to `x` the generator multiples selected by the `n` lowest of the five top bits of `c`. */
  function Reduce(c: Register, x: Register, n: nat): Register
    requires n <= 5
  {
    if n == 0 then x else XorIf(c[5 - n], Reduce(c, x, n - 1), Generator(n - 1))
  }

  /** One step of the checksum: shift the register left by five bits, put the symbol in, reduce. */
  function Step(c: Register, v: Symbol): Register {
    Reduce(c, c[5..] + v, 5)
  }

  function Fold(c: Register, symbols: seq<Symbol>): Register
    decreases |symbols|
  {
    if symbols == [] then c else Fold(Step(c, symbols[0]), symbols[1..])
  }

  function XorSymbols(s: seq<Symbol>, t: seq<Symbol>): (r: seq<Symbol>)
    requires |s| == |t|
    ensures |r| == |s| && forall i :: 0 <= i < |s| ==> r[i] == Xor(s[i], t[i])
  {
    seq(|s|, i requires 0 <= i < |s| => Xor(s[i], t[i]))
  }

  // ---------- The checksum is linear and every step is injective ----------

  lemma XorIfLinear(b: bool, d: bool, x: Register, y: Register, g: Register)
    ensures XorIf(b != d, Xor(x, y), g) == Xor(XorIf(b, x, g), XorIf(d, y, g))
  {
  }

  lemma {:induction false} ReduceLinear(c: Register, d: Register, x: Register, y: Register, n: nat)
    requires n <= 5
    ensures Reduce(Xor(c, d), Xor(x, y), n) == Xor(Reduce(c, x, n), Reduce(d, y, n))
  {
    if n > 0 {
      ReduceLinear(c, d, x, y, n - 1);
      XorIfLinear(c[5 - n], d[5 - n], Reduce(c, x, n - 1), Reduce(d, y, n - 1), Generator(n - 1));
    }
  }

  lemma StepLinear(c: Register, d: Register, v: Symbol, w: Symbol)
    ensures Step(Xor(c, d), Xor(v, w)) == Xor(Step(c, v), Step(d, w))
  {
    assert Xor(c, d)[5..] + Xor(v, w) == Xor(c[5..] + v, d[5..] + w);
    ReduceLinear(c, d, c[5..] + v, d[5..] + w, 5);
  }

  lemma XorZero(x: seq<bool>, y: seq<bool>)
    requires |x| == |y|
    ensures Xor(x, y) == Zeros(|x|) <==> x == y
  {
    if Xor(x, y) == Zeros(|x|) {
      forall i | 0 <= i < |x|
        ensures x[i] == y[i]
      {
        assert !Xor(x, y)[i];
      }
    }
  }

  function ZeroRegister(): Register {
    Zeros(30)
  }

  const ZERO_SYMBOL: Symbol := [false, false, false, false, false]

  /** The constant terms of the five generator multiples, as five-bit groups. */
  function LowBits(i: nat): Symbol
    requires i < 5
  {
    [[true, false, false, true, false], [false, true, true, false, true], [true, true, false, true, false],
     [true, true, true, false, true], [true, false, false, true, true]][i]
  }

  lemma GeneratorLowBits(i: nat)
    requires i < 5
    ensures Generator(i)[25..] == LowBits(i)
  {
    BitsOfTail(GENERATOR[i], 30, 5);
    FiveBits(GENERATOR[i]);
    LowDigits(i);
  }

  lemma LowDigits(i: nat)
    requires i < 5
    ensures var n := GENERATOR[i];
            LowBits(i) == [n / 2 / 2 / 2 / 2 % 2 == 1, n / 2 / 2 / 2 % 2 == 1, n / 2 / 2 % 2 == 1,
                           n / 2 % 2 == 1, n % 2 == 1]
  {
    if i == 0 {
    } else if i == 1 {
    } else if i == 2 {
    } else if i == 3 {
    } else {
    }
  }

  /** What the reduction adds to bit `25 + k` of the register. */
  function LowSum(c: Register, k: nat, n: nat): bool
    requires n <= 5 && k < 5
    decreases n
  {
    if n == 0 then false else LowSum(c, k, n - 1) != (c[5 - n] && LowBits(n - 1)[k])
  }

  lemma {:induction false} ReduceLow(c: Register, x: Register, n: nat, k: nat)
    requires n <= 5 && k < 5
    ensures Reduce(c, x, n)[25 + k] == (x[25 + k] != LowSum(c, k, n))
  {
    if n > 0 {
      ReduceLow(c, x, n - 1, k);
      GeneratorLowBits(n - 1);
      assert Generator(n - 1)[25 + k] == Generator(n - 1)[25..][k];
    }
  }

  lemma LowBitsIndependent(c: Register)
    requires forall k :: 0 <= k < 5 ==> !LowSum(c, k, 5)
    ensures c[..5] == ZERO_SYMBOL
  {
    assert LowSum(c, 0, 5) == (((c[4] != c[2]) != c[1]) != c[0]);
    assert LowSum(c, 1, 5) == ((c[3] != c[2]) != c[1]);
    assert LowSum(c, 2, 5) == (c[3] != c[1]);
    assert LowSum(c, 3, 5) == ((c[4] != c[2]) != c[0]);
    assert LowSum(c, 4, 5) == ((c[3] != c[1]) != c[0]);
  }

  /** Those constant terms are linearly independent, so a nonzero group shifted out always leaves a trace. */
  lemma StepKernel(c: Register)
    requires Step(c, ZERO_SYMBOL) == ZeroRegister()
    ensures c == ZeroRegister()
  {
    var x := c[5..] + ZERO_SYMBOL;
    forall k | 0 <= k < 5
      ensures !LowSum(c, k, 5)
    {
      ReduceLow(c, x, 5, k);
      assert !x[25 + k] && !ZeroRegister()[25 + k];
    }
    LowBitsIndependent(c);
    NoReduction(c, x, 5);
    assert c[5..] == x[..25];
    assert c == c[..5] + c[5..];
  }

  lemma {:induction false} NoReduction(c: Register, x: Register, n: nat)
    requires n <= 5 && c[..5] == ZERO_SYMBOL
    ensures Reduce(c, x, n) == x
  {
    if n > 0 {
      assert !c[..5][5 - n];
      NoReduction(c, x, n - 1);
    }
  }

  lemma StepInjective(c: Register, d: Register, v: Symbol)
    requires Step(c, v) == Step(d, v)
    ensures c == d
  {
    StepLinear(c, d, v, v);
    XorZero(v, v);
    assert Xor(v, v) == ZERO_SYMBOL;
    XorZero(Step(c, v), Step(d, v));
    StepKernel(Xor(c, d));
    XorZero(c, d);
  }

  /** The checksum is additive over exclusive or, in both the start value and the symbols. */
  lemma {:induction false} FoldLinear(c: Register, d: Register, s: seq<Symbol>, t: seq<Symbol>)
    requires |s| == |t|
    ensures Fold(Xor(c, d), XorSymbols(s, t)) == Xor(Fold(c, s), Fold(d, t))
    decreases |s|
  {
    if s != [] {
      StepLinear(c, d, s[0], t[0]);
      FoldLinear(Step(c, s[0]), Step(d, t[0]), s[1..], t[1..]);
      assert XorSymbols(s, t)[1..] == XorSymbols(s[1..], t[1..]);
    }
  }

  lemma {:induction false} FoldConcat(c: Register, s: seq<Symbol>, t: seq<Symbol>)
    ensures Fold(c, s + t) == Fold(Fold(c, s), t)
    decreases |s|
  {
    if s == [] {
      assert s + t == t;
    } else {
      var d := Step(c, s[0]);
      assert (s + t)[0] == s[0] && (s + t)[1..] == s[1..] + t;
      FoldConcat(d, s[1..], t);
    }
  }

  /** Equal symbols cannot hide a difference that is already in the register. */
  lemma {:induction false} FoldInjective(c: Register, d: Register, s: seq<Symbol>)
    requires Fold(c, s) == Fold(d, s)
    ensures c == d
    decreases |s|
  {
    if s != [] {
      FoldInjective(Step(c, s[0]), Step(d, s[0]), s[1..]);
      StepInjective(c, d, s[0]);
    }
  }

  /** A register with enough clear bits at the top just takes the symbols in, without any reduction. */
  lemma {:induction false} FoldShifts(n: nat, x: seq<bool>, s: seq<Symbol>)
    requires n + |x| == 30 && 5 * |s| <= n
    ensures Fold(Zeros(n) + x, s) == Zeros(n - 5 * |s|) + (x + SymbolsToBits(s))
    decreases |s|
  {
    if s == [] {
      assert x + SymbolsToBits(s) == x;
    } else {
      StepShifts(n, x, s[0]);
      FoldShifts(n - 5, x + s[0], s[1..]);
      ConcatAssoc(x, s[0], SymbolsToBits(s[1..]));
    }
  }

  lemma StepShifts(n: nat, x: seq<bool>, v: Symbol)
    requires n + |x| == 30 && 5 <= n
    ensures Step(Zeros(n) + x, v) == Zeros(n - 5) + (x + v)
  {
    var c := Zeros(n) + x;
    assert c[..5] == ZERO_SYMBOL;
    assert c[5..] + v == Zeros(n - 5) + (x + v);
    NoReduction(c, c[5..] + v, 5);
  }

  // ---------- The six checksum symbols ----------

  /** The human-readable part enters the checksum as the high bits of its characters, a zero, and their low bits. */
  function HrpExpand(hrp: string): seq<Symbol> {
    seq(|hrp|, i requires 0 <= i < |hrp| => BitsOf(hrp[i] as int / 32, 5)) + [ZERO_SYMBOL]
    + seq(|hrp|, i requires 0 <= i < |hrp| => BitsOf(hrp[i] as int % 32, 5))
  }

  function Polymod(hrp: string, symbols: seq<Symbol>): Register {
    Fold(BitsOf(1, 30), HrpExpand(hrp) + symbols)
  }

  predicate Verifies(hrp: string, symbols: seq<Symbol>) {
    Polymod(hrp, symbols) == BitsOf(BECH32M_CONST, 30)
  }

  function Unpack(c: Register): (r: seq<Symbol>)
    ensures |r| == 6
  {
    [c[..5], c[5..10], c[10..15], c[15..20], c[20..25], c[25..]]
  }

  function Checksum(hrp: string, data: seq<Symbol>): (r: seq<Symbol>)
    ensures |r| == 6
  {
    Unpack(Xor(Polymod(hrp, data + seq(6, _ => ZERO_SYMBOL)), BitsOf(BECH32M_CONST, 30)))
  }

  lemma UnpackInverse(c: Register)
    ensures SymbolsToBits(Unpack(c)) == c
  {
    var u := Unpack(c);
    assert u[1..][1..] == u[2..] && u[2..][1..] == u[3..] && u[3..][1..] == u[4..] && u[4..][1..] == u[5..];
    assert SymbolsToBits(u[5..]) == c[25..] + SymbolsToBits(u[5..][1..]) == c[25..];
    assert SymbolsToBits(u[4..]) == c[20..25] + c[25..] == c[20..];
    assert SymbolsToBits(u[3..]) == c[15..20] + c[20..] == c[15..];
    assert SymbolsToBits(u[2..]) == c[10..15] + c[15..] == c[10..];
    assert SymbolsToBits(u[1..]) == c[5..10] + c[10..] == c[5..];
  }

  lemma XorSolve(x: seq<bool>, y: seq<bool>, z: seq<bool>)
    requires |x| == |y| == |z|
    ensures Xor(x, y) == z <==> y == Xor(x, z)
  {
    forall i | 0 <= i < |x|
      ensures (Xor(x, y)[i] == z[i]) == (y[i] == Xor(x, z)[i])
    {
    }
    if Xor(x, y) == z {
      assert y == Xor(x, z);
    }
    if y == Xor(x, z) {
      assert Xor(x, y) == z;
    }
  }

  /** Appending six symbols adds exactly their bits to the checksum of the data followed by six zeros. */
  lemma PolymodTail(hrp: string, data: seq<Symbol>, tail: seq<Symbol>)
    requires |tail| == 6
    ensures Polymod(hrp, data + tail) == Xor(Polymod(hrp, data + seq(6, _ => ZERO_SYMBOL)), SymbolsToBits(tail))
  {
    var zeros := seq(6, _ => ZERO_SYMBOL);
    var prefix := HrpExpand(hrp) + data;
    var r := Fold(BitsOf(1, 30), prefix);
    ConcatAssoc(HrpExpand(hrp), data, tail);
    ConcatAssoc(HrpExpand(hrp), data, zeros);
    FoldConcat(BitsOf(1, 30), prefix, tail);
    FoldConcat(BitsOf(1, 30), prefix, zeros);
    FoldTail(r, zeros, tail);
  }

  lemma FoldTail(r: Register, zeros: seq<Symbol>, tail: seq<Symbol>)
    requires |tail| == |zeros| == 6 && forall i :: 0 <= i < 6 ==> zeros[i] == ZERO_SYMBOL
    ensures Fold(r, tail) == Xor(Fold(r, zeros), SymbolsToBits(tail))
  {
    FoldLinear(r, ZeroRegister(), zeros, tail);
    assert Xor(r, ZeroRegister()) == r;
    forall i | 0 <= i < 6
      ensures Xor(zeros[i], tail[i]) == tail[i]
    {
    }
    assert XorSymbols(zeros, tail) == tail;
    FoldFromZero(tail);
    assert Zeros(0) + SymbolsToBits(tail) == SymbolsToBits(tail);
  }

  /** From a clear register, at most six symbols are simply shifted in. */
  lemma FoldFromZero(s: seq<Symbol>)
    requires |s| <= 6
    ensures Fold(ZeroRegister(), s) == Zeros(30 - 5 * |s|) + SymbolsToBits(s)
  {
    FoldShifts(30, [], s);
    NothingAdded(Zeros(30));
    NothingAdded(SymbolsToBits(s));
  }

  lemma NothingAdded<T>(s: seq<T>)
    ensures s + [] == s && [] + s == s
  {
  }

  /** Whatever the data, exactly one six-symbol checksum verifies: the computed one. */
  lemma ChecksumUnique(hrp: string, data: seq<Symbol>, tail: seq<Symbol>)
    requires |tail| == 6
    ensures Verifies(hrp, data + tail) <==> tail == Checksum(hrp, data)
  {
    var p := Polymod(hrp, data + seq(6, _ => ZERO_SYMBOL));
    var k := BitsOf(BECH32M_CONST, 30);
    PolymodTail(hrp, data, tail);
    XorSolve(p, SymbolsToBits(tail), k);
    UnpackInverse(Xor(p, k));
    if SymbolsToBits(tail) == Xor(p, k) {
      SymbolsToBitsInjective(tail, Unpack(Xor(p, k)));
    }
  }

  // ---------- Error detection ----------

  /** Two different symbol strings of the same length that differ only inside a window of six symbols have
      different checksums, wherever the window is and however long the strings are. */
  lemma BurstChangesFold(c: Register, before: seq<Symbol>, s: seq<Symbol>, t: seq<Symbol>, after: seq<Symbol>)
    requires |s| == |t| <= 6 && s != t
    ensures Fold(c, before + s + after) != Fold(c, before + t + after)
  {
    var r := Fold(c, before);
    FoldConcat(c, before + s, after);
    FoldConcat(c, before + t, after);
    FoldConcat(c, before, s);
    FoldConcat(c, before, t);
    if Fold(c, before + s + after) == Fold(c, before + t + after) {
      FoldInjective(Fold(r, s), Fold(r, t), after);
      FoldSixInjective(r, s, t);
    }
  }

  /** At most six symbols are determined by what they do to any register. */
  lemma FoldSixInjective(r: Register, s: seq<Symbol>, t: seq<Symbol>)
    requires |s| == |t| <= 6 && Fold(r, s) == Fold(r, t)
    ensures s == t
  {
    FoldLinear(r, r, s, t);
    XorZero(r, r);
    XorZero(Fold(r, s), Fold(r, t));
    ZeroFold(XorSymbols(s, t));
    XorSymbolsZero(s, t);
  }

  lemma ZeroFold(d: seq<Symbol>)
    requires |d| <= 6 && Fold(ZeroRegister(), d) == ZeroRegister()
    ensures forall i :: 0 <= i < |d| ==> d[i] == Zeros(5)
  {
    FoldFromZero(d);
    ZeroTail(30 - 5 * |d|, SymbolsToBits(d));
    ZeroBitsZeroSymbols(d);
  }

  lemma ZeroTail(n: nat, bits: seq<bool>)
    requires Zeros(n) + bits == Zeros(n + |bits|)
    ensures forall k :: 0 <= k < |bits| ==> !bits[k]
  {
    forall k | 0 <= k < |bits|
      ensures !bits[k]
    {
      assert bits[k] == Zeros(n + |bits|)[n + k];
    }
  }

  lemma XorSymbolsZero(s: seq<Symbol>, t: seq<Symbol>)
    requires |s| == |t| && forall i :: 0 <= i < |s| ==> XorSymbols(s, t)[i] == Zeros(5)
    ensures s == t
  {
    forall i | 0 <= i < |s|
      ensures s[i] == t[i]
    {
      assert XorSymbols(s, t)[i] == Zeros(5);
      XorZero(s[i], t[i]);
    }
  }

  lemma {:induction false} ZeroBitsZeroSymbols(d: seq<Symbol>)
    requires forall k :: 0 <= k < 5 * |d| ==> !SymbolsToBits(d)[k]
    ensures forall i :: 0 <= i < |d| ==> d[i] == Zeros(5)
  {
    if d != [] {
      forall k | 0 <= k < 5
        ensures !d[0][k]
      {
        assert d[0][k] == SymbolsToBits(d)[k];
      }
      forall k | 0 <= k < 5 * |d[1..]|
        ensures !SymbolsToBits(d[1..])[k]
      {
        assert SymbolsToBits(d[1..])[k] == SymbolsToBits(d)[k + 5];
      }
      ZeroBitsZeroSymbols(d[1..]);
      assert d[0] == Zeros(5);
    }
  }

  // ---------- Six is the limit ----------

  /** The generator polynomial itself, as seven symbols. */
  function GeneratorWord(): (r: seq<Symbol>)
    ensures |r| == 7
  {
    [[false, false, false, false, true]] + Unpack(Generator(0))
  }

  lemma GeneratorWordVanishes()
    ensures Fold(ZeroRegister(), GeneratorWord()) == ZeroRegister()
  {
    var g := Generator(0);
    var last: Symbol := g[25..];
    var head := GeneratorWord()[..6];
    GeneratorHead(g);
    assert GeneratorWord() == head + [last];
    FoldConcat(ZeroRegister(), head, [last]);
    var c := Fold(ZeroRegister(), head);
    assert c[5..] + last == g;
    CancelGenerator(c, g);
    OneSymbol(c, last);
  }

  lemma OneSymbol(c: Register, v: Symbol)
    ensures Fold(c, [v]) == Step(c, v)
  {
    assert [v][1..] == [];
  }

  /** The first six symbols of the generator word fill the register with a one and the generator's leading digits. */
  lemma GeneratorHead(g: Register)
    requires g == Generator(0)
    ensures var c := Fold(ZeroRegister(), GeneratorWord()[..6]);
            c[..5] == [false, false, false, false, true] && c[5..] == g[..25]
  {
    HeadFold(g, GeneratorWord()[..6]);
  }

  lemma HeadFold(g: Register, head: seq<Symbol>)
    requires head == [[false, false, false, false, true]] + Unpack(g)[..5]
    ensures var c := Fold(ZeroRegister(), head);
            c[..5] == [false, false, false, false, true] && c[5..] == g[..25]
  {
    var one: Symbol := [false, false, false, false, true];
    FoldFromZero(head);
    UnpackInverse(g);
    PrefixBits(Unpack(g), 5);
    assert head[1..] == Unpack(g)[..5];
    assert SymbolsToBits(head) == one + g[..25];
    assert Zeros(0) + (one + g[..25]) == one + g[..25];
  }

  lemma {:induction false} PrefixBits(s: seq<Symbol>, n: nat)
    requires n <= |s|
    ensures SymbolsToBits(s[..n]) == SymbolsToBits(s)[..5 * n]
  {
    if n > 0 {
      PrefixBits(s[1..], n - 1);
      assert s[..n][1..] == s[1..][..n - 1];
      assert SymbolsToBits(s)[..5 * n] == s[0] + SymbolsToBits(s[1..])[..5 * (n - 1)];
    }
  }

  lemma CancelGenerator(c: Register, g: Register)
    requires g == Generator(0) && c[..5] == [false, false, false, false, true]
    ensures Reduce(c, g, 5) == ZeroRegister()
  {
    assert c[4] == c[..5][4] && c[3] == c[..5][3] && c[2] == c[..5][2] && c[1] == c[..5][1] && c[0] == c[..5][0];
    XorZero(g, g);
    assert Reduce(c, g, 1) == ZeroRegister();
    assert Reduce(c, g, 2) == ZeroRegister();
    assert Reduce(c, g, 3) == ZeroRegister();
    assert Reduce(c, g, 4) == ZeroRegister();
  }

  /** A window of seven symbols can always be changed without the checksum noticing, so the six of the burst theorem
      cannot be improved. */
  lemma SevenSymbolsEscape(c: Register, before: seq<Symbol>, s: seq<Symbol>, after: seq<Symbol>)
    returns (t: seq<Symbol>)
    requires |s| == 7
    ensures |t| == 7 && t != s && Fold(c, before + s + after) == Fold(c, before + t + after)
  {
    var g := GeneratorWord();
    var r := Fold(c, before);
    t := XorSymbols(s, g);
    assert t[0][4] == !s[0][4];
    GeneratorWordVanishes();
    FoldLinear(r, ZeroRegister(), s, g);
    assert Xor(r, ZeroRegister()) == r;
    assert Xor(Fold(r, s), ZeroRegister()) == Fold(r, s);
    FoldConcat(c, before + s, after);
    FoldConcat(c, before + t, after);
    FoldConcat(c, before, s);
    FoldConcat(c, before, t);
  }
}
