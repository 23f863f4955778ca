/** The two-phase sr25519 signer: phase 1 derives the nonce and parks it in the second half of the signature, the caller
    puts the nonce point in the first half, and phase 2 replaces the nonce by the marked response scalar.
    Merlin output is an arbitrary function of the exact list of transcript operations. */
module Sr25519 {
  import opened Bytes
  import opened Groups
  import opened Modular

  /** The order of the Ed25519 base point, RFC 8032, section 5.1. */
  const L: nat := 0x1000000000000000000000000000000014def9dea2f79cd65812631a5cf5d3ed

  /** The order of RFC 8032, section 5.1: two to the power 252 plus its published remainder. */
  lemma OrderValue()
    ensures 8 * L == TopBit() + 8 * 27742317777372353535851937790883648493
  {
    TopBitValue();
  }

  // ---------- Transcripts ----------

  datatype Entry =
    | Domain(tag: string)
    | Message(tag: string, data: seq<byte>)
    | Challenge(tag: string, length: nat)

  /** What Merlin answers after a given list of operations, the request included. */
  datatype Oracle = Oracle(bytes32: seq<Entry> -> Bytes32, bytes64: seq<Entry> -> Bytes64)

  class Transcript {
    var log: seq<Entry>

    constructor (tag: string)
      ensures log == [Domain(tag)]
    {
      log := [Domain(tag)];
    }

    method AppendMessage(tag: string, data: seq<byte>)
      modifies this
      ensures log == old(log) + [Message(tag, data)]
    {
      log := log + [Message(tag, data)];
    }

    method ChallengeBytes32(oracle: Oracle, tag: string) returns (bytes: Bytes32)
      modifies this
      ensures log == old(log) + [Challenge(tag, 32)]
      ensures bytes == oracle.bytes32(log)
    {
      log := log + [Challenge(tag, 32)];
      bytes := oracle.bytes32(log);
    }

    method ChallengeBytes64(oracle: Oracle, tag: string) returns (bytes: Bytes64)
      modifies this
      ensures log == old(log) + [Challenge(tag, 64)]
      ensures bytes == oracle.bytes64(log)
    {
      log := log + [Challenge(tag, 64)];
      bytes := oracle.bytes64(log);
    }

    method Zeroize()
      modifies this
      ensures log == []
    {
      log := [];
    }
  }

  /** What both phases have committed to before they differ. */
  function CommonLog(context: seq<byte>, message: seq<byte>, pk: Bytes32): seq<Entry> {
    [Domain("SigningContext"), Message("", context), Message("sign-bytes", message),
     Message("proto-name", SCHNORR_SIG), Message("sign:pk", pk)]
  }

  /** `Schnorr-sig` in ASCII. */
  const SCHNORR_SIG: seq<byte> := [83, 99, 104, 110, 111, 114, 114, 45, 115, 105, 103]

  function SeedEntries(seeds: seq<seq<byte>>): (r: seq<Entry>)
    ensures |r| == |seeds|
  {
    seq(|seeds|, i requires 0 <= i < |seeds| => Message("nonce-bytes", seeds[i]))
  }

  function WitnessLog(context: seq<byte>, message: seq<byte>, pk: Bytes32, seed: seq<byte>, rng: Bytes32): seq<Entry> {
    CommonLog(context, message, pk)
    + [Message("nonce-bytes", seed), Message("rng", rng), Challenge("witness-bytes", 32)]
  }

  function ChallengeLog(context: seq<byte>, message: seq<byte>, pk: Bytes32, r: Bytes32): seq<Entry> {
    CommonLog(context, message, pk) + [Message("sign:R", r), Challenge("sign:c", 64)]
  }

  /** The challenge commits to exactly the context, the message, the public key and the nonce point, and is never the
      transcript a nonce is drawn from. */
  lemma ChallengeCommits(context: seq<byte>, message: seq<byte>, pk: Bytes32, r: Bytes32,
                         context': seq<byte>, message': seq<byte>, pk': Bytes32, r': Bytes32)
    ensures ChallengeLog(context, message, pk, r) == ChallengeLog(context', message', pk', r') <==>
            context == context' && message == message' && pk == pk' && r == r'
    ensures forall seed, rng :: ChallengeLog(context, message, pk, r) != WitnessLog(context', message', pk', seed, rng)
  {
    var a := ChallengeLog(context, message, pk, r);
    var b := ChallengeLog(context', message', pk', r');
    if a == b {
      assert a[1] == b[1] && a[2] == b[2] && a[4] == b[4] && a[5] == b[5];
    }
    forall seed, rng: Bytes32
      ensures a != WitnessLog(context', message', pk', seed, rng)
    {
      assert a[5].tag == "sign:R";
      assert WitnessLog(context', message', pk', seed, rng)[5].tag == "nonce-bytes";
      assert "sign:R"[0] != "nonce-bytes"[0];
    }
  }

  /** The nonce is drawn from exactly the context, the message, the public key, the secret seed and the random bytes:
      two nonce transcripts are the same only if all five are. */
  lemma NonceCommits(context: seq<byte>, message: seq<byte>, pk: Bytes32, seed: seq<byte>, rng: Bytes32,
                     context': seq<byte>, message': seq<byte>, pk': Bytes32, seed': seq<byte>, rng': Bytes32)
    ensures WitnessLog(context, message, pk, seed, rng) == WitnessLog(context', message', pk', seed', rng') <==>
            context == context' && message == message' && pk == pk' && seed == seed' && rng == rng'
  {
    var a := WitnessLog(context, message, pk, seed, rng);
    var b := WitnessLog(context', message', pk', seed', rng');
    if a == b {
      assert a[1] == b[1] && a[2] == b[2] && a[4] == b[4] && a[5] == b[5] && a[6] == b[6];
    }
  }

  /** Both phases commit to the same five entries before they differ. */
  lemma PhasesAgree(context: seq<byte>, message: seq<byte>, pk: Bytes32, seed: seq<byte>, rng: Bytes32, r: Bytes32)
    ensures |WitnessLog(context, message, pk, seed, rng)| == 8 && |ChallengeLog(context, message, pk, r)| == 7
    ensures WitnessLog(context, message, pk, seed, rng)[..5] == ChallengeLog(context, message, pk, r)[..5]
  {
    var common := CommonLog(context, message, pk);
    assert WitnessLog(context, message, pk, seed, rng)[..5] == common;
    assert ChallengeLog(context, message, pk, r)[..5] == common;
  }

  // ---------- Scalars ----------

  /** `Scalar::from_bits`: the top bit is dropped, the value is not reduced modulo the order. */
  function FromBits(bytes: Bytes32): nat {
    LeValue(bytes) % TopBit()
  }

  function WideReduce(bytes: Bytes64): (c: nat)
    ensures c < L && Divides(L, LeValue(bytes) - c)
  {
    ResidueIff(L, LeValue(bytes), LeValue(bytes) % L);
    LeValue(bytes) % L
  }

  function AddMod(a: nat, b: nat): (r: nat)
    ensures r < L
  {
    (a + b) % L
  }

  function MulMod(a: nat, b: nat): (r: nat)
    ensures r < L
  {
    a * b % L
  }

  lemma AddModZero(a: nat)
    requires a < L
    ensures AddMod(0, a) == a
  {
  }

  lemma AddCongruent(m: nat, k: nat, v: nat, c: nat, r: nat)
    requires m > 0 && Divides(m, v - c) && Divides(m, k + c - r)
    ensures Divides(m, k + v - r)
  {
    DividesLinear(m, v - c, k + c - r, 1, 1);
  }

  method GetChallengeScalar(k: nat, transcript: Transcript, oracle: Oracle) returns (k': nat)
    modifies transcript
    ensures transcript.log == old(transcript.log) + [Challenge("sign:c", 64)]
    ensures k' == AddMod(k, WideReduce(oracle.bytes64(transcript.log)))
    ensures k' < L && Divides(L, k + LeValue(oracle.bytes64(transcript.log)) - k')
  {
    var kbytes := transcript.ChallengeBytes64(oracle, "sign:c");
    var c := WideReduce(kbytes);
    k' := AddMod(k, c);
    SumResidue(k, c);
    AddCongruent(L, k, LeValue(kbytes), c, k');
  }

  /** The reduced product with the secret, whose top bit is dropped and which is itself not reduced. */
  method MultWithSecret(k: nat, sk: Bytes64) returns (k': nat)
    ensures k' < L
    ensures Divides(L, k * (LeValue(sk[..32]) % TopBit()) - k')
  {
    var s := FromBits(sk[..32]);
    k' := MulMod(k, s);
    ProductResidue(k, s);
  }

  /** The bytes of the reduced sum with the nonce, whose top bit is dropped and which is itself not reduced. */
  method AddWitness(k: nat, x: Bytes32) returns (bytes: Bytes32)
    ensures LeValue(bytes) < L && bytes[31] < 128
    ensures Divides(L, k + LeValue(x) % TopBit() - LeValue(bytes))
  {
    var r := FromBits(x);
    var sum := AddMod(k, r);
    bytes := LeBytes(sum, 32);
    ReducedBytes(sum);
    SumResidue(k, r);
  }

  lemma ProductIs(a: nat, b: nat, k: nat)
    requires k < L && Divides(L, a * b - k)
    ensures k == MulMod(a, b)
  {
    ResidueIff(L, a * b, k);
  }

  lemma SumIs(a: nat, b: nat, bytes: Bytes32)
    requires LeValue(bytes) < L && Divides(L, a + b - LeValue(bytes))
    ensures bytes == LeBytes(AddMod(a, b), 32)
  {
    ResidueIff(L, a + b, LeValue(bytes));
    LeBytesOfLeValue(bytes);
  }

  lemma ProductResidue(a: nat, b: nat)
    ensures Divides(L, a * b - MulMod(a, b))
  {
    ResidueIff(L, a * b, MulMod(a, b));
  }

  lemma SumResidue(a: nat, b: nat)
    ensures Divides(L, a + b - AddMod(a, b))
  {
    ResidueIff(L, a + b, AddMod(a, b));
  }

  /** A reduced scalar fits 32 bytes and leaves their top bit clear. */
  lemma ReducedBytes(s: nat)
    requires s < L
    ensures LeValue(LeBytes(s, 32)) == s && LeBytes(s, 32)[31] < 128
  {
    OrderBelowTopBit();
    TwiceTopBit();
    LeValueOfLeBytes(s, 32);
    TopBitMeaning(LeBytes(s, 32));
  }

  // ---------- The two phases ----------

  method GetWitnessBytes(transcript: Transcript, seeds: seq<seq<byte>>, rng: Bytes32, oracle: Oracle)
    returns (x: Bytes32)
    modifies transcript
    ensures x == oracle.bytes32(old(transcript.log) + SeedEntries(seeds)
                                + [Message("rng", rng), Challenge("witness-bytes", 32)])
    ensures transcript.log == []
  {
    for i := 0 to |seeds|
      invariant transcript.log == old(transcript.log) + SeedEntries(seeds)[..i]
    {
      transcript.AppendMessage("nonce-bytes", seeds[i]);
    }
    transcript.AppendMessage("rng", rng);
    x := transcript.ChallengeBytes32(oracle, "witness-bytes");
    assert transcript.log == old(transcript.log) + SeedEntries(seeds)
                             + [Message("rng", rng), Challenge("witness-bytes", 32)];
    transcript.Zeroize();
  }

  method SignPhase1(sk: Bytes64, pk: Bytes32, context: seq<byte>, message: seq<byte>, rng: Bytes32, oracle: Oracle,
                    signature: array<byte>)
    requires signature.Length == 64
    modifies signature
    ensures signature[..32] == old(signature[..32])
    ensures signature[32..] == oracle.bytes32(WitnessLog(context, message, pk, sk[32..], rng))
  {
    var transcript := new Transcript("SigningContext");
    transcript.AppendMessage("", context);
    transcript.AppendMessage("sign-bytes", message);
    transcript.AppendMessage("proto-name", SCHNORR_SIG);
    transcript.AppendMessage("sign:pk", pk);
    assert transcript.log == CommonLog(context, message, pk);
    ghost var log := transcript.log;
    var x := GetWitnessBytes(transcript, [sk[32..]], rng, oracle);
    assert log + SeedEntries([sk[32..]]) + [Message("rng", rng), Challenge("witness-bytes", 32)]
        == WitnessLog(context, message, pk, sk[32..], rng);
    forall i | 0 <= i < 32 {
      signature[32 + i] := x[i];
    }
  }

  /** The response scalar of phase 2. */
  function Response(oracle: Oracle, sk: Bytes64, pk: Bytes32, context: seq<byte>, message: seq<byte>, r: Bytes32,
                    x: Bytes32): (s: nat)
    ensures s < L
  {
    var c := WideReduce(oracle.bytes64(ChallengeLog(context, message, pk, r)));
    AddMod(MulMod(c, FromBits(sk[..32])), FromBits(x))
  }

  method SignPhase2(sk: Bytes64, pk: Bytes32, context: seq<byte>, message: seq<byte>, oracle: Oracle,
                    signature: array<byte>)
    requires signature.Length == 64
    modifies signature
    ensures signature[..32] == old(signature[..32])
    ensures var s := Response(oracle, sk, pk, context, message, old(signature[..32]), old(signature[32..]));
            signature[32..] == Mark(LeBytes(s, 32))
  {
    var transcript := new Transcript("SigningContext");
    transcript.AppendMessage("", context);
    transcript.AppendMessage("sign-bytes", message);
    transcript.AppendMessage("proto-name", SCHNORR_SIG);
    transcript.AppendMessage("sign:pk", pk);
    transcript.AppendMessage("sign:R", signature[..32]);
    var x: Bytes32 := signature[32..];
    var k := GetChallengeScalar(0, transcript, oracle);
    assert transcript.log == ChallengeLog(context, message, pk, signature[..32]);
    AddModZero(WideReduce(oracle.bytes64(transcript.log)));
    var s := RespondTo(k, sk, x);
    StoreMarked(signature, s);
  }

  /** The two scalar steps on the challenge. */
  method RespondTo(c: nat, sk: Bytes64, x: Bytes32) returns (s: Bytes32)
    ensures s == LeBytes(AddMod(MulMod(c, FromBits(sk[..32])), FromBits(x)), 32)
  {
    var k := MultWithSecret(c, sk);
    ProductIs(c, FromBits(sk[..32]), k);
    s := AddWitness(k, x);
    SumIs(k, FromBits(x), s);
  }

  /** The response overwrites the nonce, then the marker bit is set in place. */
  method StoreMarked(signature: array<byte>, s: Bytes32)
    requires signature.Length == 64
    modifies signature
    ensures signature[..32] == old(signature[..32])
    ensures signature[32..] == Mark(s)
  {
    forall i | 0 <= i < 32 {
      signature[32 + i] := s[i];
    }
    assert signature[32..] == s;
    signature[63] := SetHighBit(signature[63]);
  }

  /** The marker bit in the last byte of a signature. */
  function Mark(bytes: Bytes32): Bytes32 {
    bytes[31 := SetHighBit(bytes[31])]
  }

  function Unmark(bytes: Bytes32): Bytes32 {
    bytes[31 := ClearHighBit(bytes[31])]
  }

  /** A reduced scalar leaves the marker bit free, so marking loses nothing. */
  lemma MarkedResponse(s: nat)
    requires s < L
    ensures LeBytes(s, 32)[31] < 128
    ensures Mark(LeBytes(s, 32))[31] >= 128
    ensures LeValue(Unmark(Mark(LeBytes(s, 32)))) == s
  {
    ReducedBytes(s);
    TopBitMeaning(LeBytes(s, 32));
    UnmarkMark(LeBytes(s, 32));
  }

  lemma UnmarkMark(bytes: Bytes32)
    requires bytes[31] < 128
    ensures Unmark(Mark(bytes)) == bytes
  {
  }

  lemma OrderBelowTopBit()
    ensures L < TopBit()
  {
    assert Pow256(8) == 0x1_0000_0000_0000_0000;
    assert Pow256(16) == 0x1_0000_0000_0000_0000_0000_0000_0000_0000;
    assert Pow256(24) == 0x1_0000_0000_0000_0000_0000_0000_0000_0000_0000_0000_0000_0000;
  }
}
