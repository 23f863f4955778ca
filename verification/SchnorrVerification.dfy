/** The signatures that the two-phase signer is for: the Schnorr verification equation over an arbitrary group with a
    base point killed by the scalar order, as the verifier of the signer's own test applies it. */
module SchnorrVerification {
  import opened Bytes
  import opened Groups
  import opened Modular
  import opened Sr25519

  /** The group, its base point, and the 32-byte compression of points. */
  datatype Curve<!G> = Curve(group: Group<G>, base: G, compress: G -> Bytes32)

  ghost predicate ValidCurve<G(!new)>(curve: Curve<G>) {
    IsAbelian(curve.group) && Times(curve.group, L, curve.base) == curve.group.zero
  }

  function PublicPoint<G>(curve: Curve<G>, sk: Bytes64): G {
    Times(curve.group, FromBits(sk[..32]), curve.base)
  }

  /** The transcript that the verifier builds on its own: the signing context, the message, the protocol's name, the
      public key and the first half of the signature. */
  function VerifierTranscript(context: seq<byte>, message: seq<byte>, pk: seq<byte>, r: seq<byte>): seq<Entry> {
    [Domain("SigningContext"), Message("", context), Message("sign-bytes", message),
     Message("proto-name", Ascii("Schnorr-sig")), Message("sign:pk", pk), Message("sign:R", r), Challenge("sign:c", 64)]
  }

  /** Signer and verifier ask for the challenge after the same transcript. */
  lemma SameTranscript(context: seq<byte>, message: seq<byte>, pk: Bytes32, r: Bytes32)
    ensures ChallengeLog(context, message, pk, r) == VerifierTranscript(context, message, pk, r)
  {
    assert Ascii("Schnorr-sig") == SCHNORR_SIG;
  }

  function ChallengeScalar<G>(curve: Curve<G>, oracle: Oracle, a: G, context: seq<byte>, message: seq<byte>,
                              r: Bytes32): nat {
    LeValue(oracle.bytes64(VerifierTranscript(context, message, curve.compress(a), r))) % L
  }

  /** A signature is accepted when it carries the marker bit, its scalar is reduced, and the scalar multiple of the
      base less the challenge multiple of the public point compresses to its first half. */
  predicate Accepts<G>(curve: Curve<G>, oracle: Oracle, a: G, context: seq<byte>, message: seq<byte>,
                       signature: Bytes64)
  {
    var g := curve.group;
    var r: Bytes32 := signature[..32];
    var s := LeValue(signature[32..]) % TopBit();
    var c := ChallengeScalar(curve, oracle, a, context, message, r);
    && signature[63] >= 128
    && s < L
    && curve.compress(g.add(Times(g, s, curve.base), g.neg(Times(g, c, a)))) == r
  }

  /** Phase 1, the nonce point, phase 2, on one signature buffer. */
  method Sign<G(!new)>(curve: Curve<G>, oracle: Oracle, sk: Bytes64, context: seq<byte>, message: seq<byte>,
                       rng: Bytes32) returns (signature: array<byte>)
    requires ValidCurve(curve)
    ensures fresh(signature) && signature.Length == 64
    ensures Accepts(curve, oracle, PublicPoint(curve, sk), context, message, signature[..])
    ensures var pk := curve.compress(PublicPoint(curve, sk));
            var x := oracle.bytes32(WitnessLog(context, message, pk, sk[32..], rng));
            IsSignerOutput(curve, oracle, sk, context, message, x, signature[..])
  {
    var a := PublicPoint(curve, sk);
    var pk := curve.compress(a);
    signature := new byte[64](_ => 0);
    SignPhase1(sk, pk, context, message, rng, oracle, signature);
    var x: Bytes32 := signature[32..];
    StoreNoncePoint(curve, x, signature);
    var r: Bytes32 := signature[..32];
    SignPhase2(sk, pk, context, message, oracle, signature);
    ResponseAccepted(curve, oracle, sk, context, message, x, signature[..]);
  }

  method StoreNoncePoint<G>(curve: Curve<G>, x: Bytes32, signature: array<byte>)
    requires signature.Length == 64
    modifies signature
    ensures signature[..32] == curve.compress(Times(curve.group, FromBits(x), curve.base))
    ensures signature[32..] == old(signature[32..])
  {
    var r := curve.compress(Times(curve.group, FromBits(x), curve.base));
    forall i | 0 <= i < 32 {
      signature[i] := r[i];
    }
  }

  /** The two halves that the signer writes for a given nonce. */
  predicate IsSignerOutput<G>(curve: Curve<G>, oracle: Oracle, sk: Bytes64, context: seq<byte>, message: seq<byte>,
                              x: Bytes32, signature: Bytes64)
  {
    var r: Bytes32 := signature[..32];
    var pk := curve.compress(PublicPoint(curve, sk));
    && r == curve.compress(Times(curve.group, FromBits(x), curve.base))
    && signature[32..] == Mark(LeBytes(Response(oracle, sk, pk, context, message, r, x), 32))
  }

  /** The response times the base is the nonce point plus the challenge times the public key, although neither the
      secret nor the nonce is a reduced scalar. */
  lemma SchnorrEquation<G(!new)>(curve: Curve<G>, c: nat, a: nat, x: nat)
    requires ValidCurve(curve)
    ensures var g := curve.group;
            Times(g, AddMod(MulMod(c, a), x), curve.base)
            == g.add(Times(g, x, curve.base), Times(g, c, Times(g, a, curve.base)))
  {
    var g, b := curve.group, curve.base;
    var m := MulMod(c, a);
    TimesAddMod(curve, m, x);
    TimesMulMod(curve, c, a);
    assert CommutativeAt(g, Times(g, m, b), Times(g, x, b));
  }

  lemma TimesAddMod<G(!new)>(curve: Curve<G>, m: nat, n: nat)
    requires ValidCurve(curve)
    ensures var g := curve.group;
            Times(g, AddMod(m, n), curve.base) == g.add(Times(g, m, curve.base), Times(g, n, curve.base))
  {
    TimesMod(curve.group, L, m + n, curve.base);
    TimesAdd(curve.group, m, n, curve.base);
  }

  lemma TimesMulMod<G(!new)>(curve: Curve<G>, m: nat, n: nat)
    requires ValidCurve(curve)
    ensures var g := curve.group;
            Times(g, MulMod(m, n), curve.base) == Times(g, m, Times(g, n, curve.base))
  {
    assert m * n >= 0;
    TimesMod(curve.group, L, m * n, curve.base);
    TimesTimes(curve.group, m, n, curve.base);
  }

  lemma ResponseAccepted<G(!new)>(curve: Curve<G>, oracle: Oracle, sk: Bytes64, context: seq<byte>,
                                  message: seq<byte>, x: Bytes32, signature: Bytes64)
    requires ValidCurve(curve) && IsSignerOutput(curve, oracle, sk, context, message, x, signature)
    ensures Accepts(curve, oracle, PublicPoint(curve, sk), context, message, signature)
  {
    var g, b := curve.group, curve.base;
    var a := PublicPoint(curve, sk);
    var r: Bytes32 := signature[..32];
    var c := ChallengeScalar(curve, oracle, a, context, message, r);
    var s := Response(oracle, sk, curve.compress(a), context, message, r, x);
    assert signature[63] == signature[32..][31];
    SameTranscript(context, message, curve.compress(a), r);
    SameChallenge(oracle.bytes64(VerifierTranscript(context, message, curve.compress(a), r)));
    MarkedResponse(s);
    TopBitMeaning(signature[32..]);
    SchnorrEquation(curve, c, FromBits(sk[..32]), FromBits(x));
    Subtract(g, Times(g, FromBits(x), b), Times(g, c, a));
  }

  lemma Subtract<G(!new)>(g: Group<G>, p: G, q: G)
    requires IsAbelian(g)
    ensures g.add(g.add(p, q), g.neg(q)) == p
  {
    assert AssociativeAt(g, p, q, g.neg(q)) && ZeroAndInverseAt(g, q) && ZeroAndInverseAt(g, p);
  }

  /** When the base has exactly the scalar order and compression is injective, the signer's response is the only one
      that verifies with its nonce point. */
  lemma OnlyResponseAccepted<G(!new)>(curve: Curve<G>, oracle: Oracle, sk: Bytes64, context: seq<byte>,
                                      message: seq<byte>, x: Bytes32, signature: Bytes64)
    requires ValidCurve(curve) && HasOrder(curve.group, L, curve.base)
    requires forall p, q :: curve.compress(p) == curve.compress(q) ==> p == q
    requires signature[..32] == curve.compress(Times(curve.group, FromBits(x), curve.base))
    ensures Accepts(curve, oracle, PublicPoint(curve, sk), context, message, signature) <==>
            IsSignerOutput(curve, oracle, sk, context, message, x, signature)
  {
    var g, b := curve.group, curve.base;
    var a := PublicPoint(curve, sk);
    if IsSignerOutput(curve, oracle, sk, context, message, x, signature) {
      ResponseAccepted(curve, oracle, sk, context, message, x, signature);
    }
    if Accepts(curve, oracle, a, context, message, signature) {
      var r: Bytes32 := signature[..32];
      var c := ChallengeScalar(curve, oracle, a, context, message, r);
      var s := LeValue(signature[32..]) % TopBit();
      SameTranscript(context, message, curve.compress(a), r);
      SameChallenge(oracle.bytes64(VerifierTranscript(context, message, curve.compress(a), r)));
      TopBitMeaning(signature[32..]);
      var n := Response(oracle, sk, curve.compress(a), context, message, r, x);
      SchnorrEquation(curve, c, FromBits(sk[..32]), FromBits(x));
      Subtract(g, Times(g, FromBits(x), b), Times(g, c, a));
      CancelRight(g, Times(g, s, b), Times(g, n, b), g.neg(Times(g, c, a)));
      if s <= n {
        TimesInjective(g, L, s, n, b);
      } else {
        TimesInjective(g, L, n, s, b);
      }
      RemarkedBytes(signature[32..], n);
    }
  }

  lemma SameChallenge(bytes: Bytes64)
    ensures WideReduce(bytes) == LeValue(bytes) % L
  {
    ResidueIff(L, LeValue(bytes), WideReduce(bytes));
  }

  lemma RemarkedBytes(bytes: Bytes32, n: nat)
    requires bytes[31] >= 128 && LeValue(Unmark(bytes)) == n
    ensures bytes == Mark(LeBytes(n, 32))
  {
    LeBytesOfLeValue(Unmark(bytes));
    assert Mark(Unmark(bytes)) == bytes;
  }
}
