/** Regrouping of bits between bytes and five-bit symbols, most significant bit first, as in BIP-173,
    section "Bech32": zero padding when encoding; when decoding, an incomplete last group of at most four
    zero bits is dropped and anything else is refused. */
module BitGroups {
  import opened Bytes

  /** A five-bit group, most significant bit first. */
  type Symbol = s: seq<bool> | |s| == 5 witness [false, false, false, false, false]

  /** The low `width` bits of `n`, most significant first. */
  function BitsOf(n: nat, width: nat): (r: seq<bool>)
    ensures |r| == width
  {
    if width == 0 then [] else BitsOf(n / 2, width - 1) + [n % 2 == 1]
  }

  function ValueOf(bits: seq<bool>): nat {
    if bits == [] then 0
    else 2 * ValueOf(bits[..|bits| - 1]) + if bits[|bits| - 1] then 1 else 0
  }

  function ByteBits(b: byte): (r: seq<bool>)
    ensures |r| == 8
  {
    BitsOf(b, 8)
  }

  function BitsByte(bits: seq<bool>): byte
    requires |bits| == 8
  {
    ValueBound(bits);
    assert Pow2(8) == 256;
    ValueOf(bits)
  }

  function Pow2(n: nat): nat {
    if n == 0 then 1 else 2 * Pow2(n - 1)
  }

  lemma {:induction false} ValueBound(bits: seq<bool>)
    ensures ValueOf(bits) < Pow2(|bits|)
  {
    if bits != [] {
      ValueBound(bits[..|bits| - 1]);
    }
  }

  lemma {:induction false} ValueOfBitsOf(n: nat, width: nat)
    requires n < Pow2(width)
    ensures ValueOf(BitsOf(n, width)) == n
  {
    if width > 0 {
      ValueOfBitsOf(n / 2, width - 1);
      var bits := BitsOf(n, width);
      assert bits[..|bits| - 1] == BitsOf(n / 2, width - 1);
    }
  }

  lemma {:induction false} BitsOfTail(n: nat, width: nat, k: nat)
    requires k <= width
    ensures BitsOf(n, width)[width - k..] == BitsOf(n, k)
  {
    if k > 0 {
      BitsOfTail(n / 2, width - 1, k - 1);
      assert BitsOf(n, width)[width - k..] == BitsOf(n / 2, width - 1)[width - k..] + [n % 2 == 1];
    }
  }

  lemma FiveBits(n: nat)
    ensures BitsOf(n, 5) == [n / 2 / 2 / 2 / 2 % 2 == 1, n / 2 / 2 / 2 % 2 == 1, n / 2 / 2 % 2 == 1,
                             n / 2 % 2 == 1, n % 2 == 1]
  {
    var n1 := n / 2;
    var n2 := n1 / 2;
    var n3 := n2 / 2;
    assert BitsOf(n3, 2) == [n3 / 2 % 2 == 1, n3 % 2 == 1];
    assert BitsOf(n1, 4) == BitsOf(n3, 2) + [n2 % 2 == 1] + [n1 % 2 == 1];
  }

  lemma {:induction false} BitsOfValueOf(bits: seq<bool>)
    ensures BitsOf(ValueOf(bits), |bits|) == bits
  {
    if bits != [] {
      var init := bits[..|bits| - 1];
      BitsOfValueOf(init);
      assert ValueOf(bits) / 2 == ValueOf(init);
      assert bits == init + [bits[|bits| - 1]];
    }
  }

  function BytesToBits(data: seq<byte>): (r: seq<bool>)
    ensures |r| == 8 * |data|
  {
    if data == [] then [] else ByteBits(data[0]) + BytesToBits(data[1..])
  }

  function SymbolsToBits(symbols: seq<Symbol>): (r: seq<bool>)
    ensures |r| == 5 * |symbols|
  {
    if symbols == [] then [] else symbols[0] + SymbolsToBits(symbols[1..])
  }

  function Zeros(n: nat): (r: seq<bool>)
    ensures |r| == n && forall i :: 0 <= i < n ==> !r[i]
  {
    seq(n, _ => false)
  }

  function PadLength(n: nat): nat {
    (5 - n % 5) % 5
  }

  function GroupPadded(bits: seq<bool>): seq<Symbol> {
    if bits == [] then []
    else if |bits| < 5 then [bits + Zeros(5 - |bits|)]
    else [bits[..5]] + GroupPadded(bits[5..])
  }

  function BytesFromBits(bits: seq<bool>): Option<seq<byte>> {
    if |bits| >= 8 then
      match BytesFromBits(bits[8..])
      case None => None
      case Some(rest) => Some([BitsByte(bits[..8])] + rest)
    else if |bits| <= 4 && bits == Zeros(|bits|) then Some([])
    else None
  }

  /** Eight to five bits, with padding. */
  function ToSymbols(data: seq<byte>): seq<Symbol> {
    GroupPadded(BytesToBits(data))
  }

  /** Five to eight bits, strict about the leftover bits. */
  function FromSymbols(symbols: seq<Symbol>): Option<seq<byte>> {
    BytesFromBits(SymbolsToBits(symbols))
  }

  lemma ByteBitsInverse(b: byte)
    ensures BitsByte(ByteBits(b)) == b
  {
    assert Pow2(8) == 256;
    ValueOfBitsOf(b, 8);
  }

  lemma BitsByteInverse(bits: seq<bool>)
    requires |bits| == 8
    ensures ByteBits(BitsByte(bits)) == bits
  {
    BitsOfValueOf(bits);
  }

  /** Grouping loses no bit: it only appends the padding that fills the last group. */
  lemma {:induction false} GroupPaddedBits(bits: seq<bool>)
    ensures SymbolsToBits(GroupPadded(bits)) == bits + Zeros(PadLength(|bits|))
    decreases |bits|
  {
    if bits == [] {
    } else if |bits| < 5 {
      var v: Symbol := bits + Zeros(5 - |bits|);
      assert [v][1..] == [];
      assert SymbolsToBits([v]) == v;
    } else {
      var rest := GroupPadded(bits[5..]);
      GroupPaddedBits(bits[5..]);
      assert PadLength(|bits[5..]|) == PadLength(|bits|);
      assert ([bits[..5]] + rest)[1..] == rest;
      Reassemble(bits, Zeros(PadLength(|bits|)));
    }
  }

  lemma Reassemble(bits: seq<bool>, pad: seq<bool>)
    requires 5 <= |bits|
    ensures bits[..5] + (bits[5..] + pad) == bits + pad
  {
  }

  /** Reading bits back as bytes succeeds exactly on whole bytes followed by at most four zero bits. */
  lemma {:induction false} BytesFromBitsIff(bits: seq<bool>, data: seq<byte>)
    ensures BytesFromBits(bits) == Some(data) <==>
            8 * |data| <= |bits| <= 8 * |data| + 4 && bits == BytesToBits(data) + Zeros(|bits| - 8 * |data|)
    decreases |bits|
  {
    if |bits| >= 8 {
      var first := BitsByte(bits[..8]);
      BitsByteInverse(bits[..8]);
      assert bits == bits[..8] + bits[8..];
      if data != [] {
        ByteBitsInverse(data[0]);
        BytesFromBitsIff(bits[8..], data[1..]);
        assert data == [data[0]] + data[1..];
        if 8 * |data| <= |bits| <= 8 * |data| + 4 {
          var tail := Zeros(|bits| - 8 * |data|);
          assert BytesToBits(data) + tail == ByteBits(data[0]) + (BytesToBits(data[1..]) + tail);
          if bits == BytesToBits(data) + tail {
            assert bits[..8] == ByteBits(data[0]) && bits[8..] == BytesToBits(data[1..]) + tail;
          }
        }
        if BytesFromBits(bits) == Some(data) {
          assert data[0] == first && BytesFromBits(bits[8..]) == Some(data[1..]);
        }
      }
    } else if data != [] {
      assert |bits| < 8 * |data|;
    } else {
      assert BytesToBits(data) == [];
      assert [] + Zeros(|bits|) == Zeros(|bits|);
    }
  }

  lemma {:induction false} SymbolsToBitsInjective(s: seq<Symbol>, t: seq<Symbol>)
    requires SymbolsToBits(s) == SymbolsToBits(t)
    ensures s == t
  {
    assert |s| == |t|;
    if s != [] {
      assert s[0] == SymbolsToBits(s)[..5] == SymbolsToBits(t)[..5] == t[0];
      assert SymbolsToBits(s[1..]) == SymbolsToBits(s)[5..] == SymbolsToBits(t)[5..] == SymbolsToBits(t[1..]);
      SymbolsToBitsInjective(s[1..], t[1..]);
    }
  }

  /** Strict decoding accepts exactly the symbol strings that padded encoding produces, and inverts it. */
  lemma RegroupingRoundTrip(symbols: seq<Symbol>, data: seq<byte>)
    ensures FromSymbols(symbols) == Some(data) <==> symbols == ToSymbols(data)
  {
    var bits := SymbolsToBits(symbols);
    var out := BytesToBits(data);
    GroupPaddedBits(out);
    BytesFromBitsIff(bits, data);
    if symbols == ToSymbols(data) {
      assert |bits| == 8 * |data| + PadLength(8 * |data|);
    }
    if FromSymbols(symbols) == Some(data) {
      assert |bits| - 8 * |data| == PadLength(8 * |data|);
      SymbolsToBitsInjective(symbols, ToSymbols(data));
    }
  }

  /** The number of symbols is the number of bits divided by five, rounded up. */
  lemma ToSymbolsLength(data: seq<byte>)
    ensures |ToSymbols(data)| == (8 * |data| + 4) / 5
  {
    GroupPaddedBits(BytesToBits(data));
  }
}
