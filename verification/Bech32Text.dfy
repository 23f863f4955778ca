/** Bech32m strings: human-readable part, separator `1`, data symbols and checksum in the alphabet of BIP-173,
    section "Bech32". The decoder takes the expected human-readable part and is strict: lower-case only. */
module Bech32Text {
  import opened Bytes
  import opened BitGroups
  import opened Bech32m
  import Substitutions

  const ALPHABET := "qpzry9x8gf2tvdw0s3jn54khce6mua7l"

  function SymbolValue(v: Symbol): (n: nat)
    ensures n < 32
  {
    ValueBound(v);
    assert Pow2(5) == 32;
    ValueOf(v)
  }

  function SymbolChar(v: Symbol): char {
    ALPHABET[SymbolValue(v)]
  }

  /** The position of `c` in the alphabet at or after `from`, or 32 when there is none. */
  function Position(c: char, from: nat): (n: nat)
    requires from <= 32
    ensures from <= n <= 32
    ensures n < 32 ==> ALPHABET[n] == c
    ensures forall i :: from <= i < n ==> ALPHABET[i] != c
    decreases 32 - from
  {
    if from == 32 || ALPHABET[from] == c then from else Position(c, from + 1)
  }

  function CharSymbol(c: char): Option<Symbol> {
    if Position(c, 0) < 32 then Some(BitsOf(Position(c, 0), 5)) else None
  }

  function ToText(symbols: seq<Symbol>): (r: string)
    ensures |r| == |symbols|
  {
    seq(|symbols|, i requires 0 <= i < |symbols| => SymbolChar(symbols[i]))
  }

  function FromText(text: string): Option<seq<Symbol>> {
    if text == "" then Some([])
    else
      match CharSymbol(text[0])
      case None => None
      case Some(v) =>
        match FromText(text[1..])
        case None => None
        case Some(rest) => Some([v] + rest)
  }

  function Encode(hrp: string, data: seq<byte>): string {
    hrp + "1" + ToText(ToSymbols(data) + Checksum(hrp, ToSymbols(data)))
  }

  function Decode(hrp: string, text: string): Option<seq<byte>> {
    if hrp + "1" <= text then
      match FromText(text[|hrp| + 1..])
      case None => None
      case Some(symbols) =>
        if |symbols| >= 6 && Verifies(hrp, symbols) then FromSymbols(symbols[..|symbols| - 6]) else None
    else None
  }

  /** No character occurs twice in the alphabet. */
  lemma AlphabetDistinct(i: nat, j: nat)
    requires i < j < 32
    ensures ALPHABET[i] != ALPHABET[j]
  {
    if j < 12 {
    } else if j < 18 {
    } else if j < 23 {
    } else if j < 28 {
    } else {
    }
  }

  lemma CharSymbolIff(c: char, v: Symbol)
    ensures CharSymbol(c) == Some(v) <==> c == SymbolChar(v)
  {
    var n := Position(c, 0);
    BitsOfValueOf(v);
    if c == SymbolChar(v) {
      if n < SymbolValue(v) {
        AlphabetDistinct(n, SymbolValue(v));
      }
      assert n == SymbolValue(v);
    }
    if n < 32 {
      assert Pow2(5) == 32;
      ValueOfBitsOf(n, 5);
    }
  }

  lemma {:induction false} FromTextIff(text: string, symbols: seq<Symbol>)
    ensures FromText(text) == Some(symbols) <==> text == ToText(symbols)
  {
    if text != "" && symbols != [] {
      FromTextIff(text[1..], symbols[1..]);
      FromTextCons(text, symbols);
      ToTextCons(symbols);
      CharSymbolIff(text[0], symbols[0]);
      assert text == [text[0]] + text[1..];
    }
  }

  lemma FromTextCons(text: string, symbols: seq<Symbol>)
    requires text != "" && symbols != []
    ensures FromText(text) == Some(symbols) <==>
            CharSymbol(text[0]) == Some(symbols[0]) && FromText(text[1..]) == Some(symbols[1..])
  {
    assert symbols == [symbols[0]] + symbols[1..];
  }

  lemma ToTextCons(symbols: seq<Symbol>)
    requires symbols != []
    ensures ToText(symbols) == [SymbolChar(symbols[0])] + ToText(symbols[1..])
  {
  }

  /** Strict decoding accepts exactly the encoder's output and inverts it: there is one valid string per byte string. */
  lemma EncodingRoundTrip(hrp: string, text: string, data: seq<byte>)
    ensures Decode(hrp, text) == Some(data) <==> text == Encode(hrp, data)
  {
    if text == Encode(hrp, data) {
      EncodedDecodes(hrp, data);
    }
    if Decode(hrp, text) == Some(data) {
      DecodedIsEncoded(hrp, text, data);
    }
  }

  lemma EncodedDecodes(hrp: string, data: seq<byte>)
    ensures Decode(hrp, Encode(hrp, data)) == Some(data)
  {
    var symbols := ToSymbols(data);
    var body := symbols + Checksum(hrp, symbols);
    var text := hrp + "1" + ToText(body);
    RegroupingRoundTrip(symbols, data);
    ChecksumUnique(hrp, symbols, Checksum(hrp, symbols));
    assert text[|hrp| + 1..] == ToText(body);
    FromTextIff(ToText(body), body);
    assert body[..|body| - 6] == symbols;
  }

  lemma DecodedIsEncoded(hrp: string, text: string, data: seq<byte>)
    requires Decode(hrp, text) == Some(data)
    ensures text == Encode(hrp, data)
  {
    var init, tail := DecodedSymbols(hrp, text);
    VerifiedSplit(hrp, init, tail, data);
  }

  lemma VerifiedSplit(hrp: string, init: seq<Symbol>, tail: seq<Symbol>, data: seq<byte>)
    requires |tail| == 6 && Verifies(hrp, init + tail) && FromSymbols(init) == Some(data)
    ensures hrp + "1" + ToText(init + tail) == Encode(hrp, data)
  {
    RegroupingRoundTrip(init, data);
    ChecksumUnique(hrp, init, tail);
  }

  /** A string that decodes is the prefix followed by the text of data and checksum symbols that verify. */
  lemma DecodedSymbols(hrp: string, text: string) returns (init: seq<Symbol>, tail: seq<Symbol>)
    requires Decode(hrp, text) != None
    ensures text == hrp + "1" + ToText(init + tail)
    ensures |tail| == 6 && Verifies(hrp, init + tail)
    ensures FromSymbols(init) == Decode(hrp, text)
  {
    var symbols := DecodedText(hrp, text);
    init, tail := symbols[..|symbols| - 6], symbols[|symbols| - 6..];
    SplitAt(symbols, |symbols| - 6);
  }

  lemma SplitAt<T>(s: seq<T>, k: nat)
    requires k <= |s|
    ensures s[..k] + s[k..] == s
  {
  }

  lemma DecodedText(hrp: string, text: string) returns (symbols: seq<Symbol>)
    requires Decode(hrp, text) != None
    ensures text == hrp + "1" + ToText(symbols)
    ensures |symbols| >= 6 && Verifies(hrp, symbols)
    ensures FromSymbols(symbols[..|symbols| - 6]) == Decode(hrp, text)
  {
    var rest := text[|hrp| + 1..];
    symbols := FromText(rest).value;
    FromTextIff(rest, symbols);
    PrefixAndRest(hrp + "1", text);
  }

  lemma PrefixAndRest(prefix: string, text: string)
    requires prefix <= text
    ensures text == prefix + text[|prefix|..]
  {
  }

  /** Two encodings under one human-readable part are equal only for equal data. */
  lemma EncodeInjective(hrp: string, data: seq<byte>, other: seq<byte>)
    ensures Encode(hrp, data) == Encode(hrp, other) <==> data == other
  {
    EncodingRoundTrip(hrp, Encode(hrp, data), data);
    EncodingRoundTrip(hrp, Encode(hrp, data), other);
  }

  lemma EncodeLength(hrp: string, data: seq<byte>)
    ensures |Encode(hrp, data)| == |hrp| + 7 + (8 * |data| + 4) / 5
  {
    ToSymbolsLength(data);
  }

  /** No other string of the same length that agrees with a valid one outside six consecutive data characters
      decodes, in particular none with one character changed or two neighbours exchanged. */
  lemma BurstRejected(hrp: string, data: seq<byte>, text: string, at: nat)
    requires |text| == |Encode(hrp, data)| && text != Encode(hrp, data)
    requires |hrp| + 1 <= at
    requires forall i :: 0 <= i < |text| && !(at <= i < at + 6) ==> text[i] == Encode(hrp, data)[i]
    ensures Decode(hrp, text) == None
  {
    var good := Encode(hrp, data);
    EncodingRoundTrip(hrp, good, data);
    if Decode(hrp, text) != None {
      var sInit, sTail := DecodedSymbols(hrp, good);
      var tInit, tTail := DecodedSymbols(hrp, text);
      WindowRefuted(hrp, sInit + sTail, tInit + tTail, at - |hrp| - 1);
    }
  }

  /** Two different strings that agree outside a window of six characters do not both verify. */
  lemma WindowRefuted(hrp: string, s: seq<Symbol>, t: seq<Symbol>, at: nat)
    requires |s| == |t| && s != t
    requires forall i :: 0 <= i < |hrp| + 1 + |s| && !(at + |hrp| + 1 <= i < at + |hrp| + 7) ==>
                           (hrp + "1" + ToText(t))[i] == (hrp + "1" + ToText(s))[i]
    ensures !(Verifies(hrp, s) && Verifies(hrp, t))
  {
    SameSymbols(hrp + "1", s, t, at);
    WindowChangesChecksum(hrp, s, t, at);
  }

  lemma SameSymbols(prefix: string, s: seq<Symbol>, t: seq<Symbol>, at: nat)
    requires |s| == |t|
    requires forall i :: 0 <= i < |prefix| + |s| && !(at + |prefix| <= i < at + |prefix| + 6) ==>
                           (prefix + ToText(t))[i] == (prefix + ToText(s))[i]
    ensures forall i :: 0 <= i < |s| && !(at <= i < at + 6) ==> s[i] == t[i]
  {
    forall i | 0 <= i < |s| && !(at <= i < at + 6)
      ensures s[i] == t[i]
    {
      assert (prefix + ToText(t))[|prefix| + i] == (prefix + ToText(s))[|prefix| + i];
      CharSymbolIff(ToText(s)[i], s[i]);
      CharSymbolIff(ToText(t)[i], t[i]);
    }
  }

  lemma WindowChangesChecksum(hrp: string, s: seq<Symbol>, t: seq<Symbol>, at: nat)
    requires |s| == |t| && s != t
    requires forall i :: 0 <= i < |s| && !(at <= i < at + 6) ==> s[i] == t[i]
    ensures Polymod(hrp, s) != Polymod(hrp, t)
  {
    var lo := if at < |s| then at else |s|;
    var hi := if at + 6 < |s| then at + 6 else |s|;
    var front := HrpExpand(hrp);
    SplitWindow(front, s, s, lo, hi);
    SplitWindow(front, t, s, lo, hi);
    WindowDiffers(s, t, lo, hi);
    BurstChangesFold(BitsOf(1, 30), front + s[..lo], s[lo..hi], t[lo..hi], s[hi..]);
  }

  lemma WindowDiffers(s: seq<Symbol>, t: seq<Symbol>, lo: nat, hi: nat)
    requires |s| == |t| && lo <= hi <= |s| && s != t
    requires forall i :: 0 <= i < lo || hi <= i < |s| ==> s[i] == t[i]
    ensures s[lo..hi] != t[lo..hi]
  {
    SplitWindow([], t, s, lo, hi);
    SplitWindow([], s, s, lo, hi);
  }

  lemma SplitWindow(front: seq<Symbol>, t: seq<Symbol>, s: seq<Symbol>, lo: nat, hi: nat)
    requires |s| == |t| && lo <= hi <= |s|
    requires forall i :: 0 <= i < lo || hi <= i < |s| ==> s[i] == t[i]
    ensures front + t == front + s[..lo] + t[lo..hi] + s[hi..]
  {
    assert t[..lo] == s[..lo] && t[hi..] == s[hi..];
    assert t == t[..lo] + t[lo..hi] + t[hi..];
  }

  // ---------- Scattered substitutions ----------

  /** No string that differs from a valid one in at most three characters decodes, wherever the characters are, as long
      as the data part has no more than 1023 of them. */
  lemma SubstitutionsRejected(hrp: string, data: seq<byte>, text: string, i: nat, j: nat, k: nat)
    requires |text| == |Encode(hrp, data)| <= |hrp| + 1024 && text != Encode(hrp, data)
    requires forall m :: 0 <= m < |text| && m != i && m != j && m != k ==> text[m] == Encode(hrp, data)[m]
    ensures Decode(hrp, text) == None
  {
    var good := Encode(hrp, data);
    EncodingRoundTrip(hrp, good, data);
    if Decode(hrp, text) != None {
      var sInit, sTail := DecodedSymbols(hrp, good);
      var tInit, tTail := DecodedSymbols(hrp, text);
      PlacesRefuted(hrp, sInit + sTail, tInit + tTail, i - |hrp| - 1, j - |hrp| - 1, k - |hrp| - 1);
    }
  }

  /** Two different strings that agree outside three places do not both verify. */
  lemma PlacesRefuted(hrp: string, s: seq<Symbol>, t: seq<Symbol>, a: int, b: int, c: int)
    requires 6 <= |s| == |t| <= 1023 && s != t
    requires forall m :: 0 <= m < |hrp| + 1 + |s| && m - |hrp| - 1 != a && m - |hrp| - 1 != b && m - |hrp| - 1 != c ==>
                           (hrp + "1" + ToText(t))[m] == (hrp + "1" + ToText(s))[m]
    ensures !(Verifies(hrp, s) && Verifies(hrp, t))
  {
    forall m | 0 <= m < |s| && m != a && m != b && m != c
      ensures s[m] == t[m]
    {
      SameSymbol(hrp + "1", s, t, m);
    }
    PlacesChangeChecksum(hrp, s, t, a, b, c);
  }

  lemma PlacesChangeChecksum(hrp: string, s: seq<Symbol>, t: seq<Symbol>, a: int, b: int, c: int)
    requires 3 <= |s| == |t| <= 1023 && s != t
    requires forall m :: 0 <= m < |s| && m != a && m != b && m != c ==> s[m] == t[m]
    ensures Polymod(hrp, s) != Polymod(hrp, t)
  {
    var i, j, k := CoverThree(|s|, a, b, c);
    var start := Fold(BitsOf(1, 30), HrpExpand(hrp));
    FoldConcat(BitsOf(1, 30), HrpExpand(hrp), s);
    FoldConcat(BitsOf(1, 30), HrpExpand(hrp), t);
    Substitutions.ThreeChangesShow(start, s, t, i, j, k);
  }

  lemma SameSymbol(prefix: string, s: seq<Symbol>, t: seq<Symbol>, m: nat)
    requires m < |s| == |t| && (prefix + ToText(t))[|prefix| + m] == (prefix + ToText(s))[|prefix| + m]
    ensures s[m] == t[m]
  {
    CharSymbolIff(ToText(s)[m], s[m]);
    CharSymbolIff(ToText(t)[m], t[m]);
  }

  /** Three different places in increasing order, among them those of the given ones that are below `n`. */
  lemma CoverThree(n: nat, a: int, b: int, c: int) returns (i: nat, j: nat, k: nat)
    requires n >= 3
    ensures i < j < k < n
    ensures 0 <= a < n ==> a == i || a == j || a == k
    ensures 0 <= b < n ==> b == i || b == j || b == k
    ensures 0 <= c < n ==> c == i || c == j || c == k
  {
    var x := if 0 <= a < n then a else 0;
    var y := if 0 <= b < n && b != x then b else if x == 0 then 1 else 0;
    var z := if 0 <= c < n && c != x && c != y then c
             else if x != 0 && y != 0 then 0 else if x != 1 && y != 1 then 1 else 2;
    i, j, k := if x < y then x else y, if x < y then y else x, z;
    if k < j {
      j, k := k, j;
    }
    if j < i {
      i, j := j, i;
    }
  }
}
