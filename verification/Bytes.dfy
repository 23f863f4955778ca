/** Bytes and machine words, and their little- and big-endian values. */
module Bytes {
  type byte = b: int | 0 <= b < 256
  type uint16 = w: int | 0 <= w < 0x1_0000
  type uint32 = w: int | 0 <= w < 0x1_0000_0000
  type Bytes12 = b: seq<byte> | |b| == 12 witness seq(12, _ => 0)
  type Bytes32 = b: seq<byte> | |b| == 32 witness seq(32, _ => 0)
  type Bytes64 = b: seq<byte> | |b| == 64 witness seq(64, _ => 0)

  datatype Option<+T> = None | Some(value: T)

  /** Conversion of a C integer to `uint16_t`. */
  function ToUint16(n: nat): uint16 {
    n % 0x1_0000
  }

  /** C subtraction on `uint32_t`, which wraps around. */
  function SubUint32(a: uint32, b: uint32): uint32 {
    (a - b) % 0x1_0000_0000
  }

  lemma ConcatAssoc<T>(a: seq<T>, b: seq<T>, c: seq<T>)
    ensures (a + b) + c == a + (b + c)
  {
  }

  /** The bytes of a text of eight-bit characters. */
  function Ascii(text: string): (r: seq<byte>)
    ensures |r| == |text|
  {
    seq(|text|, i requires 0 <= i < |text| => text[i] as int % 256)
  }

  lemma LastSplit<T>(s: seq<T>)
    requires s != []
    ensures s == s[..|s| - 1] + [s[|s| - 1]]
  {
  }

  // ---------- Little- and big-endian values ----------

  function Pow256(n: nat): (r: nat)
    ensures r >= 1
  {
    if n == 0 then 1 else 256 * Pow256(n - 1)
  }

  function LeValue(bytes: seq<byte>): nat {
    if bytes == [] then 0 else bytes[0] + 256 * LeValue(bytes[1..])
  }

  function BeValue(bytes: seq<byte>): nat {
    if bytes == [] then 0 else 256 * BeValue(bytes[..|bytes| - 1]) + bytes[|bytes| - 1]
  }

  /** The `width` low bytes of `n`, least significant first. */
  function LeBytes(n: nat, width: nat): (r: seq<byte>)
    ensures |r| == width
  {
    if width == 0 then [] else [n % 256] + LeBytes(n / 256, width - 1)
  }

  function Reversed(bytes: seq<byte>): (r: seq<byte>)
    ensures |r| == |bytes| && forall i :: 0 <= i < |r| ==> r[i] == bytes[|bytes| - 1 - i]
  {
    seq(|bytes|, i requires 0 <= i < |bytes| => bytes[|bytes| - 1 - i])
  }

  lemma {:induction false} LeValueBound(bytes: seq<byte>)
    ensures LeValue(bytes) < Pow256(|bytes|)
  {
    if bytes != [] {
      LeValueBound(bytes[1..]);
    }
  }

  lemma {:induction false} LeBytesOfLeValue(bytes: seq<byte>)
    ensures LeBytes(LeValue(bytes), |bytes|) == bytes
  {
    if bytes != [] {
      LeBytesOfLeValue(bytes[1..]);
      assert LeValue(bytes) / 256 == LeValue(bytes[1..]);
    }
  }

  lemma {:induction false} LeValueOfLeBytes(n: nat, width: nat)
    requires n < Pow256(width)
    ensures LeValue(LeBytes(n, width)) == n
  {
    if width > 0 {
      LeValueOfLeBytes(n / 256, width - 1);
    }
  }

  lemma {:induction false} LeBytesWrap(n: nat, width: nat)
    ensures LeBytes(n + Pow256(width), width) == LeBytes(n, width)
  {
    if width > 0 {
      LeBytesWrap(n / 256, width - 1);
      assert (n + 256 * Pow256(width - 1)) / 256 == n / 256 + Pow256(width - 1);
    }
  }

  lemma {:induction false} LeValueConcat(a: seq<byte>, b: seq<byte>)
    ensures LeValue(a + b) == LeValue(a) + Pow256(|a|) * LeValue(b)
  {
    if a == [] {
      assert a + b == b;
    } else {
      LeValueConcat(a[1..], b);
      assert (a + b)[1..] == a[1..] + b;
      MulAssoc(256, Pow256(|a| - 1), LeValue(b));
    }
  }

  lemma MulAssoc(a: nat, b: nat, c: nat)
    ensures a * (b * c) == (a * b) * c
  {
  }

  lemma {:induction false} LeValueReversed(bytes: seq<byte>)
    ensures LeValue(Reversed(bytes)) == BeValue(bytes)
  {
    if bytes != [] {
      var n := |bytes| - 1;
      LeValueReversed(bytes[..n]);
      assert Reversed(bytes)[1..] == Reversed(bytes[..n]);
    }
  }

  // ---------- The top bit of a 32-byte little-endian number ----------

  /** Two to the power 255. */
  function TopBit(): nat {
    128 * Pow256(31)
  }

  lemma TopBitValue()
    ensures TopBit() == 0x8000000000000000000000000000000000000000000000000000000000000000
  {
    assert Pow256(4) == 0x100000000;
    assert Pow256(8) == 0x10000000000000000;
    assert Pow256(12) == 0x1000000000000000000000000;
    assert Pow256(16) == 0x100000000000000000000000000000000;
    assert Pow256(20) == 0x10000000000000000000000000000000000000000;
    assert Pow256(24) == 0x1000000000000000000000000000000000000000000000000;
    assert Pow256(28) == 0x100000000000000000000000000000000000000000000000000000000;
    assert Pow256(31) == 0x100000000000000000000000000000000000000000000000000000000000000;
  }

  lemma TwiceTopBit()
    ensures 2 * TopBit() == Pow256(32)
  {
  }

  /** `b |= 0x80` on one byte. */
  function SetHighBit(b: byte): byte {
    if b < 128 then b + 128 else b
  }

  /** `b &= 0x7f` on one byte. */
  function ClearHighBit(b: byte): byte {
    b % 128
  }

  /** The value of a 32-byte number with its top byte replaced. */
  lemma SplitTopByte(bytes: Bytes32, b: byte)
    ensures LeValue(bytes[31 := b]) == LeValue(bytes[..31]) + Pow256(31) * b
    ensures LeValue(bytes[..31]) < Pow256(31)
  {
    assert bytes[31 := b] == bytes[..31] + [b];
    LeValueConcat(bytes[..31], [b]);
    LeValueBound(bytes[..31]);
    assert LeValue([b]) == b;
  }

  lemma SameByte(bytes: seq<byte>, i: nat)
    requires i < |bytes|
    ensures bytes[i := bytes[i]] == bytes
  {
  }

  /** The top bit is set exactly from two to the power 255 on; clearing it takes the remainder, setting it adds it
      when it was clear. */
  lemma TopBitMeaning(bytes: Bytes32)
    ensures bytes[31] >= 128 <==> LeValue(bytes) >= TopBit()
    ensures LeValue(bytes[31 := ClearHighBit(bytes[31])]) == LeValue(bytes) % TopBit()
    ensures LeValue(bytes[31 := SetHighBit(bytes[31])]) == LeValue(bytes) % TopBit() + TopBit()
  {
    var b := bytes[31];
    SameByte(bytes, 31);
    SplitTopByte(bytes, b);
    SplitTopByte(bytes, ClearHighBit(b));
    SplitTopByte(bytes, SetHighBit(b));
    TopByteValues(Pow256(31), TopBit(), LeValue(bytes[..31]), b, LeValue(bytes),
                  LeValue(bytes[31 := ClearHighBit(b)]), LeValue(bytes[31 := SetHighBit(b)]));
  }

  lemma TopByteValues(p: nat, top: nat, low: nat, b: byte, value: nat, cleared: nat, marked: nat)
    requires low < p && top == 128 * p && value == low + p * b
    requires cleared == low + p * ClearHighBit(b) && marked == low + p * SetHighBit(b)
    ensures b >= 128 <==> value >= top
    ensures cleared == value % top && marked == value % top + top
  {
    TopByteArithmetic(low, p, b);
  }

  lemma TopByteArithmetic(low: nat, p: nat, b: byte)
    requires low < p
    ensures b >= 128 <==> low + p * b >= 128 * p
    ensures low + p * ClearHighBit(b) == (low + p * b) % (128 * p)
    ensures low + p * SetHighBit(b) == (low + p * b) % (128 * p) + 128 * p
  {
    var a := ClearHighBit(b);
    var m := 128 * p;
    ProductBound(a, p);
    assert p * (a + 128) == p * a + m by {
      Distribute(p, a, 128);
    }
    if b >= 128 {
      assert b == a + 128;
      ModOfSum(low + p * a, m, 1);
    } else {
      assert b == a;
      ModOfSum(low + p * a, m, 0);
    }
  }

  lemma ProductBound(a: nat, p: nat)
    requires a <= 127
    ensures 0 <= p * a <= 127 * p
  {
  }

  lemma Distribute(p: int, a: int, b: int)
    ensures p * (a + b) == p * a + p * b
  {
  }

  lemma ModOfSum(r: nat, m: nat, k: nat)
    requires r < m && k <= 1
    ensures (r + k * m) % m == r
  {
  }
}
