/** The encoding of Ed25519 public keys: the byte loop of the key extraction, the 32-byte point encoding of RFC 8032,
    section 5.1.2, and why that encoding determines the point. */
module Ed25519 {
  import opened Bytes
  import opened Modular

  /** The field prime, the curve constant and a square root of minus one, from RFC 8032, section 5.1. */
  const P: nat := 0x7fffffffffffffffffffffffffffffffffffffffffffffffffffffffffffffed
  const D: nat := 0x52036cee2b6ffe738cc740797779e89800700a4d4141d8ab75eb4dca135978a3
  const SQRT_M1: nat := 0x2b8324804fc1df0b2b4d00993dfbd7a72f431806ad2fe478c4ee1b274a0ea0b0

  const PK_LEN_25519 := 32

  /** An uncompressed public key as the key generator delivers it: a marker byte, then X and Y, big-endian. */
  type UncompressedKey = w: seq<byte> | |w| == 65 witness seq(65, _ => 0)

  function KeyX(w: UncompressedKey): nat {
    BeValue(w[1..33])
  }

  function KeyY(w: UncompressedKey): nat {
    BeValue(w[33..])
  }

  /** The parity of an abscissa as the weight it gets in the encoding. */
  function SignWeight(x: nat): nat {
    if x % 2 == 1 then TopBit() else 0
  }

  function WithSign(x: nat, y: nat): nat {
    y + SignWeight(x)
  }

  /** RFC 8032, section 5.1.2: the little-endian string of Y with the parity of X in the most significant bit. */
  function EncodePoint(x: nat, y: nat): Bytes32 {
    LeBytes(WithSign(x, y), 32)
  }

  /** What the extraction loop and the sign-bit patch leave in the first 32 bytes of the output buffer. */
  function Compress(w: UncompressedKey): Bytes32 {
    var y := Reversed(w[33..]);
    if w[32] % 2 != 0 then y[31 := SetHighBit(y[31])] else y
  }

  method CompressKey(w: UncompressedKey, pubKey: array<byte>)
    requires pubKey.Length >= PK_LEN_25519
    modifies pubKey
    ensures pubKey[..32] == Compress(w)
    ensures pubKey[32..] == old(pubKey[32..])
  {
    var i := 0;
    while i < PK_LEN_25519
      invariant 0 <= i <= PK_LEN_25519
      invariant forall k :: 0 <= k < i ==> pubKey[k] == w[64 - k]
      invariant pubKey[32..] == old(pubKey[32..])
    {
      pubKey[i] := w[64 - i];
      i := i + 1;
    }
    assert pubKey[..32] == Reversed(w[33..]);
    if w[PK_LEN_25519] % 2 != 0 {
      pubKey[31] := SetHighBit(pubKey[31]);
    }
  }

  /** The code's bytes read as a number: Y with the parity of X put over its top bit. */
  lemma CompressValue(w: UncompressedKey)
    ensures LeValue(Compress(w)) ==
            if KeyX(w) % 2 == 0 then KeyY(w) else KeyY(w) % TopBit() + TopBit()
    ensures Compress(w)[31] >= 128 <==> KeyX(w) % 2 == 1 || KeyY(w) >= TopBit()
  {
    var y: Bytes32 := Reversed(w[33..]);
    LeValueReversed(w[33..]);
    TopBitMeaning(y);
    HighBit(Compress(w));
    BeParity(w[1..33]);
    assert w[1..33][31] == w[32];
  }

  lemma BeParity(bytes: seq<byte>)
    requires bytes != []
    ensures BeValue(bytes) % 2 == bytes[|bytes| - 1] % 2
  {
  }

  /** The loop computes the standard's encoding exactly when the sign bit it patches is free or not needed; a
      coordinate reduced modulo the field prime always leaves it free. */
  lemma CompressIsEncodePoint(w: UncompressedKey)
    ensures Compress(w) == EncodePoint(KeyX(w), KeyY(w)) <==> KeyY(w) < TopBit() || KeyX(w) % 2 == 0
  {
    var x, y := KeyX(w), KeyY(w);
    var v := LeValue(Compress(w));
    CompressValue(w);
    LeBytesOfLeValue(Compress(w));
    KeyYBound(w);
    SignBitValue(x, y, v, TopBit());
    SameLeBytes(v, WithSign(x, y), 32);
  }

  lemma SignBitValue(x: nat, y: nat, v: nat, t: nat)
    requires t == TopBit() && y < 2 * t
    requires v == if x % 2 == 0 then y else y % t + t
    ensures v < 2 * t && WithSign(x, y) < 4 * t
    ensures WithSign(x, y) == v <==> y < t || x % 2 == 0
    ensures WithSign(x, y) != v + 2 * t
  {
    if y < t {
      ModSmall(y, t);
    } else {
      ModHigh(y, t);
    }
  }

  /** Two numbers, one of them possibly too wide, with the same low bytes. */
  lemma SameLeBytes(v: nat, n: nat, width: nat)
    requires v < Pow256(width) && n < 2 * Pow256(width)
    ensures LeBytes(v, width) == LeBytes(n, width) <==> n == v || n == v + Pow256(width)
  {
    LeValueOfLeBytes(v, width);
    if n < Pow256(width) {
      LeValueOfLeBytes(n, width);
    } else {
      LeBytesWrap(n - Pow256(width), width);
      LeValueOfLeBytes(n - Pow256(width), width);
    }
  }

  lemma KeyYBound(w: UncompressedKey)
    ensures KeyY(w) < 2 * TopBit() == Pow256(32)
  {
    LeValueReversed(w[33..]);
    LeValueBound(Reversed(w[33..]));
    TwiceTopBit();
  }

  lemma ModHigh(y: nat, m: nat)
    requires m <= y < 2 * m
    ensures y % m + m == y
  {
    ModOfSum(y - m, m, 1);
  }

  // ---------- The encoding determines the point ----------

  /** RFC 8032, section 5.1: `-x^2 + y^2 = 1 + d x^2 y^2` over the field, with coordinates reduced. */
  predicate OnCurve(x: nat, y: nat) {
    x < P && y < P && Divides(P, CurveEquation(D, x, y))
  }

  function CurveEquation(d: int, x: int, y: int): int {
    y * y - x * x - 1 - d * (x * x) * (y * y)
  }

  predicate IsRoot(p: nat, r: int, d: int)
    requires p > 0
  {
    Divides(p, r * r - d)
  }

  ghost predicate IsNonSquare(p: nat, d: int)
    requires p > 0
  {
    forall r: int :: !IsRoot(p, r, d)
  }

  /** Where minus one has a root and `d` has none, `1 + d y^2` never vanishes. */
  lemma DenominatorNonzero(p: nat, d: int, i: int, y: int)
    requires IsPrime(p) && IsNonSquare(p, d) && IsRoot(p, i, -1)
    ensures !Divides(p, 1 + d * (y * y))
  {
    if Divides(p, 1 + d * (y * y)) {
      if Divides(p, y) {
        DividesOne(p, d, y);
      } else {
        var z := Inverse(p, y);
        RootOfD(p, d, i, y, z);
      }
    }
  }

  lemma DividesOne(p: nat, d: int, y: int)
    requires p > 0 && Divides(p, 1 + d * (y * y)) && Divides(p, y)
    ensures p == 1
  {
    DividesLinear(p, y, 1 + d * (y * y), -(d * y), 1);
    assert -(d * y) * y + 1 * (1 + d * (y * y)) == 1;
    if p > 1 {
      ModSmall(1, p);
    }
  }

  lemma RootOfD(p: nat, d: int, i: int, y: int, z: int)
    requires p > 0 && IsRoot(p, i, -1) && Divides(p, 1 + d * (y * y)) && Divides(p, y * z - 1)
    ensures IsRoot(p, i * z, d)
  {
    // (iz)^2 - d = z^2 (i^2 + 1) - z^2 (1 + d y^2) + d (yz + 1) (yz - 1)
    DividesLinear(p, i * i - -1, 1 + d * (y * y), z * z, -(z * z));
    var a := z * z * (i * i - -1) + -(z * z) * (1 + d * (y * y));
    DividesLinear(p, a, y * z - 1, 1, d * (y * z + 1));
    RootIdentity(d, i, y, z);
  }

  lemma RootIdentity(d: int, i: int, y: int, z: int)
    ensures 1 * (z * z * (i * i - -1) + -(z * z) * (1 + d * (y * y))) + d * (y * z + 1) * (y * z - 1)
            == (i * z) * (i * z) - d
  {
    var t := y * z;
    assert t * t == (y * y) * (z * z);
    assert (i * z) * (i * z) == (i * i) * (z * z);
    RootTerms(z * z, i * i, y * y, d);
    DifferenceOfSquares(d, t);
  }

  lemma RootTerms(zz: int, ii: int, yy: int, d: int)
    ensures zz * (ii - -1) + -zz * (1 + d * yy) == ii * zz - d * (yy * zz)
  {
    assert zz * (ii + 1) == zz * ii + zz;
    assert -zz * (1 + d * yy) == -zz - zz * (d * yy);
    assert zz * (d * yy) == d * (yy * zz);
  }

  lemma DifferenceOfSquares(d: int, t: int)
    ensures d * (t + 1) * (t - 1) == d * (t * t) - d
  {
    assert (t + 1) * (t - 1) == t * t - 1;
    assert d * (t + 1) * (t - 1) == d * ((t + 1) * (t - 1));
    Distribute(d, t * t, -1);
  }

  /** Two points with the same ordinate have equal or opposite abscissas. */
  lemma SameOrdinate(p: nat, d: int, x1: int, x2: int, y: int)
    requires IsPrime(p) && !Divides(p, 1 + d * (y * y))
    requires Divides(p, CurveEquation(d, x1, y)) && Divides(p, CurveEquation(d, x2, y))
    ensures Divides(p, x1 - x2) || Divides(p, x1 + x2)
  {
    DividesLinear(p, CurveEquation(d, x2, y), CurveEquation(d, x1, y), 1, -1);
    var s := (x1 - x2) * (x1 + x2);
    assert 1 * CurveEquation(d, x2, y) + -1 * CurveEquation(d, x1, y) == (1 + d * (y * y)) * s by {
      SquareIdentity(d, x1, x2, y);
    }
    Euclid(p, 1 + d * (y * y), s);
    Euclid(p, x1 - x2, x1 + x2);
  }

  lemma SquareIdentity(d: int, x1: int, x2: int, y: int)
    ensures CurveEquation(d, x2, y) - CurveEquation(d, x1, y) == (1 + d * (y * y)) * ((x1 - x2) * (x1 + x2))
  {
    var a, b, yy := x1 * x1, x2 * x2, y * y;
    assert (x1 - x2) * (x1 + x2) == a - b;
    assert (1 + d * yy) * (a - b) == (a - b) + d * yy * (a - b);
    assert d * yy * (a - b) == d * a * yy - d * b * yy;
  }

  lemma SmallMultiples(p: nat, n: int)
    requires p > 0 && 0 < p + n < 3 * p && Divides(p, n)
    ensures n == 0 || n == p
  {
    DivMod(n, p);
    SmallQuotient(n / p, p);
  }

  lemma SmallQuotient(k: int, p: nat)
    requires p > 0 && 0 < p + k * p < 3 * p
    ensures k == 0 || k == 1
  {
  }

  lemma RootOfMinusOne()
    ensures IsRoot(P, SQRT_M1, -1)
  {
  }

  /** The modulus is two to the power 255 minus 19, and the constant is the standard's `-121665/121666`. */
  lemma CurveConstant()
    ensures P + 19 == TopBit()
    ensures Divides(P, 121666 * D + 121665)
  {
    TopBitValue();
  }

  /** Two curve points with the same 32 bytes are the same point. The primality of the field modulus and the fact that
      the curve constant is not a square are taken from the standard. */
  lemma EncodingDeterminesPoint(x1: nat, y1: nat, x2: nat, y2: nat)
    requires IsPrime(P) && IsNonSquare(P, D)
    requires OnCurve(x1, y1) && OnCurve(x2, y2)
    ensures EncodePoint(x1, y1) == EncodePoint(x2, y2) <==> x1 == x2 && y1 == y2
  {
    if EncodePoint(x1, y1) == EncodePoint(x2, y2) {
      DecodePoint(x1, y1);
      DecodePoint(x2, y2);
      RootOfMinusOne();
      DenominatorNonzero(P, D, SQRT_M1, y1);
      SameOrdinate(P, D, x1, x2, y1);
      SameParity(P, x1, x2);
    }
  }

  lemma SameParity(p: nat, x1: nat, x2: nat)
    requires p % 2 == 1 && x1 < p && x2 < p && x1 % 2 == x2 % 2
    requires Divides(p, x1 - x2) || Divides(p, x1 + x2)
    ensures x1 == x2
  {
    if Divides(p, x1 - x2) {
      SmallDifference(p, x1, x2);
    } else {
      SmallSum(p, x1, x2);
    }
  }

  lemma SmallDifference(p: nat, x1: nat, x2: nat)
    requires x1 < p && x2 < p && Divides(p, x1 - x2)
    ensures x1 == x2
  {
    SmallMultiples(p, x1 - x2);
  }

  lemma SmallSum(p: nat, x1: nat, x2: nat)
    requires x1 < p && x2 < p && Divides(p, x1 + x2)
    ensures x1 + x2 == 0 || x1 + x2 == p
  {
    SmallMultiples(p, x1 + x2);
  }

  /** Two keys that are points of the curve leave the same 32 bytes exactly when they are the same point. */
  lemma CompressDeterminesPoint(w: UncompressedKey, v: UncompressedKey)
    requires IsPrime(P) && IsNonSquare(P, D)
    requires OnCurve(KeyX(w), KeyY(w)) && OnCurve(KeyX(v), KeyY(v))
    ensures Compress(w) == Compress(v) <==> KeyX(w) == KeyX(v) && KeyY(w) == KeyY(v)
  {
    FieldBelowTopBit();
    CompressIsEncodePoint(w);
    CompressIsEncodePoint(v);
    EncodingDeterminesPoint(KeyX(w), KeyY(w), KeyX(v), KeyY(v));
  }

  /** The ordinate and the parity of the abscissa can be read back from the encoding. */
  lemma DecodePoint(x: nat, y: nat)
    requires y < P
    ensures LeValue(EncodePoint(x, y)) % TopBit() == y
    ensures EncodePoint(x, y)[31] / 128 == x % 2
  {
    FieldBelowTopBit();
    EncodeValue(x, y);
    HighBit(EncodePoint(x, y));
    MarkedValue(y, TopBit(), x % 2);
  }

  lemma HighBit(bytes: Bytes32)
    ensures bytes[31] / 128 == if LeValue(bytes) >= TopBit() then 1 else 0
  {
    TopBitMeaning(bytes);
  }

  lemma MarkedValue(y: nat, top: nat, bit: nat)
    requires y < top && bit <= 1
    ensures (y + bit * top) % top == y
    ensures y + bit * top >= top <==> bit == 1
  {
    ModOfSum(y, top, bit);
  }

  lemma EncodeValue(x: nat, y: nat)
    requires y < TopBit()
    ensures LeValue(EncodePoint(x, y)) == y + SignWeight(x)
  {
    TwiceTopBit();
    LeValueOfLeBytes(WithSign(x, y), 32);
  }

  lemma FieldBelowTopBit()
    ensures P < TopBit()
  {
    TopBitValue();
  }
}
