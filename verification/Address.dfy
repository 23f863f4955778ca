/** Address derivation and the reply body of GET_ADDR: public key, then the Bech32m address of the truncated SHA-256. */
module Address {
  import opened Bytes
  import opened Bech32m
  import opened Bech32Text
  import opened BitGroups
  import opened Ed25519

  const ADDRESS_MAX_LENGTH := 66
  const PUBKEY_SHA_LEN := 28
  const HRP := "sov"

  type Path = p: seq<uint32> | |p| == 3 witness [0, 0, 0]

  datatype ZxErr = ZxOk | ZxUnknown | ZxBufferTooSmall | ZxEncodingFailed | ZxInvalidCryptoSettings

  /** The build's kind, version numbers and target. */
  datatype VersionInfo = VersionInfo(testing: bool, major: uint16, minor: uint16, patch: uint16, targetId: uint32)

  /** The calls into the device's operating system and libraries: key generation for a path (or a failure), signing for
      a path (or a failure), SHA-256, and whether the text encoder reports a failure of its own for its input. */
  datatype Device = Device(
    publicKey: Path -> Option<UncompressedKey>,
    sign: (Path, seq<byte>) -> Option<Bytes64>,
    sha256: seq<byte> -> Bytes32,
    encoderFails: seq<byte> -> bool,
    version: VersionInfo)

  function ZeroBytes(n: nat): (r: seq<byte>)
    ensures |r| == n && forall i :: 0 <= i < n ==> r[i] == 0
  {
    seq(n, _ => 0)
  }

  /** The bytes of a C string: everything before the first zero. */
  function CString(bytes: seq<byte>): seq<byte> {
    if bytes == [] || bytes[0] == 0 then [] else [bytes[0]] + CString(bytes[1..])
  }

  function Digest28(device: Device, pk: seq<byte>): seq<byte> {
    device.sha256(pk)[..PUBKEY_SHA_LEN]
  }

  function AddressOf(device: Device, pk: seq<byte>): (r: string)
    ensures |r| == 55
  {
    EncodeLength(HRP, Digest28(device, pk));
    Encode(HRP, Digest28(device, pk))
  }

  // ---------- Facts about the address text ----------

  lemma AlphabetPrintable(i: nat)
    requires i < 32
    ensures 48 <= ALPHABET[i] as int <= 122
  {
  }

  /** Nonzero seven-bit characters. */
  predicate IsPrintable(text: string) {
    forall i :: 0 <= i < |text| ==> 0 < text[i] as int < 128
  }

  predicate HasNoZero(bytes: seq<byte>) {
    forall i :: 0 <= i < |bytes| ==> bytes[i] != 0
  }

  lemma AsciiHasNoZero(text: string)
    requires IsPrintable(text)
    ensures HasNoZero(Ascii(text))
  {
  }

  lemma TextPrintable(symbols: seq<Symbol>)
    ensures IsPrintable(ToText(symbols))
  {
    forall i | 0 <= i < |symbols|
      ensures 0 < ToText(symbols)[i] as int < 128
    {
      AlphabetPrintable(SymbolValue(symbols[i]));
    }
  }

  lemma PrintableConcat(s: string, t: string)
    requires IsPrintable(s) && IsPrintable(t)
    ensures IsPrintable(s + t)
  {
  }

  lemma AddressPrintable(device: Device, pk: seq<byte>)
    ensures IsPrintable(AddressOf(device, pk))
  {
    var data := Digest28(device, pk);
    var body := ToSymbols(data) + Checksum(HRP, ToSymbols(data));
    TextPrintable(body);
    assert IsPrintable(HRP + "1");
    PrintableConcat(HRP + "1", ToText(body));
  }

  lemma AsciiInjective(s: string, t: string)
    requires |s| == |t| && IsPrintable(s) && IsPrintable(t)
    requires Ascii(s) == Ascii(t)
    ensures s == t
  {
    forall i | 0 <= i < |s|
      ensures s[i] == t[i]
    {
      assert Ascii(s)[i] == Ascii(t)[i];
    }
  }

  /** Two keys share an address exactly when the first 28 bytes of their digests agree. */
  lemma SameAddressIff(device: Device, pk: seq<byte>, other: seq<byte>)
    ensures AddressText(device, pk) == AddressText(device, other) <==>
            device.sha256(pk)[..28] == device.sha256(other)[..28]
  {
    AddressPrintable(device, pk);
    AddressPrintable(device, other);
    EncodeInjective(HRP, Digest28(device, pk), Digest28(device, other));
    if AddressText(device, pk) == AddressText(device, other) {
      AsciiInjective(AddressOf(device, pk), AddressOf(device, other));
    }
  }

  /** A string without zeros followed by a zero is read back as that string. */
  lemma {:induction false} CStringOfTerminated(text: seq<byte>, rest: seq<byte>)
    requires HasNoZero(text) && rest != [] && rest[0] == 0
    ensures CString(text + rest) == text
  {
    if text == [] {
      assert text + rest == rest;
    } else {
      assert (text + rest)[1..] == text[1..] + rest;
      CStringOfTerminated(text[1..], rest);
    }
  }

  /** The address as the bytes of a C string without its terminator. */
  function AddressText(device: Device, pk: seq<byte>): (r: seq<byte>)
    ensures |r| == 55 && HasNoZero(r)
  {
    AddressPrintable(device, pk);
    AsciiHasNoZero(AddressOf(device, pk));
    Ascii(AddressOf(device, pk))
  }

  // ---------- Operations ----------

  method Zero(a: array<byte>)
    modifies a
    ensures a[..] == ZeroBytes(a.Length)
  {
    forall i | 0 <= i < a.Length {
      a[i] := 0;
    }
  }

  method Store(a: array<byte>, offset: nat, data: seq<byte>)
    requires offset + |data| <= a.Length
    modifies a
    ensures a[..] == old(a[..offset]) + data + old(a[offset + |data|..])
  {
    forall i | 0 <= i < |data| {
      a[offset + i] := data[i];
    }
  }

  method StringLength(a: array<byte>) returns (n: nat)
    ensures n <= a.Length && CString(a[..]) == a[..n]
  {
    n := 0;
    while n < a.Length && a[n] != 0
      invariant 0 <= n <= a.Length
      invariant CString(a[..]) == a[..n] + CString(a[n..])
    {
      assert a[n..][1..] == a[n + 1..];
      assert a[..n + 1] == a[..n] + [a[n]];
      n := n + 1;
    }
    assert CString(a[n..]) == [];
  }

  lemma StoredAtStart(total: nat, data: seq<byte>)
    requires |data| <= total
    ensures ZeroBytes(total)[..0] + data + ZeroBytes(total)[0 + |data|..] == data + ZeroBytes(total - |data|)
  {
  }

  method ComputeSha256(device: Device, output: array<byte>, input: seq<byte>) returns (err: ZxErr)
    modifies output
    ensures err == if output.Length < PK_LEN_25519 then ZxInvalidCryptoSettings else ZxOk
    ensures err == ZxOk ==> output[..] == device.sha256(input) + ZeroBytes(output.Length - 32)
    ensures err != ZxOk ==> output[..] == old(output[..])
  {
    if output.Length < PK_LEN_25519 {
      return ZxInvalidCryptoSettings;
    }
    Zero(output);
    Store(output, 0, device.sha256(input));
    StoredAtStart(output.Length, device.sha256(input));
    return ZxOk;
  }

  method ComputeAddress(device: Device, address: array<byte>, pk: seq<byte>) returns (err: ZxErr)
    modifies address
    ensures err == if address.Length < ADDRESS_MAX_LENGTH then ZxInvalidCryptoSettings
                   else if device.encoderFails(Digest28(device, pk)) then ZxEncodingFailed
                   else ZxOk
    ensures err == ZxOk ==> address[..] == AddressText(device, pk) + ZeroBytes(address.Length - 55)
    ensures err == ZxOk ==> CString(address[..]) == AddressText(device, pk)
  {
    if address.Length < ADDRESS_MAX_LENGTH {
      return ZxInvalidCryptoSettings;
    }
    Zero(address);
    var sha := new byte[PK_LEN_25519](_ => 0);
    var e := ComputeSha256(device, sha, pk);
    if e != ZxOk {
      return e;
    }
    assert sha[..] == device.sha256(pk);
    var digest := sha[..PUBKEY_SHA_LEN];
    if device.encoderFails(digest) {
      return ZxEncodingFailed;
    }
    AddressPrintable(device, pk);
    StoreAddress(address, Encode(HRP, digest));
    return ZxOk;
  }

  /** The encoder writes its text and leaves the rest of the zeroed output as the terminator. */
  method StoreAddress(address: array<byte>, text: string)
    requires address.Length > |text| && address[..] == ZeroBytes(address.Length)
    requires IsPrintable(text)
    modifies address
    ensures address[..] == Ascii(text) + ZeroBytes(address.Length - |text|)
    ensures CString(address[..]) == Ascii(text)
  {
    AsciiHasNoZero(text);
    Store(address, 0, Ascii(text));
    CStringOfTerminated(Ascii(text), ZeroBytes(address.Length - |text|));
  }

  method ExtractPublicKey(device: Device, path: Path, pubKey: array<byte>) returns (err: ZxErr)
    modifies pubKey
    ensures err == if pubKey.Length < PK_LEN_25519 then ZxInvalidCryptoSettings
                   else if device.publicKey(path) == None then ZxUnknown
                   else ZxOk
    ensures err == ZxOk ==> pubKey[..] == Compress(device.publicKey(path).value) + old(pubKey[32..])
    ensures err == ZxUnknown ==> pubKey[..] == ZeroBytes(pubKey.Length)
    ensures err == ZxInvalidCryptoSettings ==> pubKey[..] == old(pubKey[..])
  {
    if pubKey.Length < PK_LEN_25519 {
      return ZxInvalidCryptoSettings;
    }
    match device.publicKey(path)
    case None =>
      Zero(pubKey);
      return ZxUnknown;
    case Some(w) =>
      CompressKey(w, pubKey);
      assert pubKey[..] == pubKey[..32] + pubKey[32..];
      return ZxOk;
  }

  /** The body of a successful address reply. */
  function AddressBody(device: Device, path: Path): (r: Option<seq<byte>>)
    ensures r.Some? ==> |r.value| == 87 && HasNoZero(r.value[32..])
  {
    match device.publicKey(path)
    case None => None
    case Some(w) =>
      if device.encoderFails(Digest28(device, Compress(w))) then None
      else
        var text := AddressText(device, Compress(w));
        assert (Compress(w) + text)[32..] == text;
        Some(Compress(w) + text)
  }

  /** A body exists exactly when the key of the path is generated and the encoder takes its truncated digest; it is that
      key, compressed, and the address of that key. */
  lemma BodyIff(device: Device, path: Path)
    ensures var key := device.publicKey(path);
            AddressBody(device, path) ==
            if key == None || device.encoderFails(device.sha256(Compress(key.value))[..28]) then None
            else Some(Compress(key.value) + Ascii(AddressOf(device, Compress(key.value))))
  {
  }

  /** The key in a body is the key of the path. */
  lemma BodyKey(device: Device, path: Path)
    requires AddressBody(device, path).Some?
    ensures device.publicKey(path).Some?
    ensures AddressBody(device, path).value[..32] == Compress(device.publicKey(path).value)
  {
    var pk := Compress(device.publicKey(path).value);
    BodyParts(pk, AddressText(device, pk));
  }

  /** The reply buffer after the address has been filled in: the body and zeros, or zeros only. */
  function Filled(device: Device, path: Path, total: nat): (r: seq<byte>)
    requires total >= 98
    ensures |r| == total
  {
    match AddressBody(device, path)
    case None => ZeroBytes(total)
    case Some(body) => body + ZeroBytes(total - 87)
  }

  /** The C string that the review screen reads behind the public key is exactly the address. */
  lemma ShownAddress(device: Device, path: Path, total: nat)
    requires total >= 98 && AddressBody(device, path).Some?
    ensures CString(Filled(device, path, total)[32..]) == AddressBody(device, path).value[32..]
  {
    var body := AddressBody(device, path).value;
    TextBehindKey(body[..32], body[32..], total - 87);
    assert body == body[..32] + body[32..];
  }

  lemma TextBehindKey(pk: Bytes32, text: seq<byte>, zeros: nat)
    requires zeros > 0 && HasNoZero(text)
    ensures var buffer := (pk + text) + ZeroBytes(zeros);
            buffer[..32] == pk && CString(buffer[32..]) == text
  {
    assert ((pk + text) + ZeroBytes(zeros))[32..] == text + ZeroBytes(zeros);
    CStringOfTerminated(text, ZeroBytes(zeros));
  }

  /** All or nothing. */
  method FillAddress(device: Device, path: Path, buffer: array<byte>, oldLength: uint16)
    returns (err: ZxErr, length: uint16)
    modifies buffer
    ensures buffer.Length < 98 ==> err == ZxBufferTooSmall && length == oldLength && buffer[..] == old(buffer[..])
    ensures buffer.Length >= 98 ==>
              && buffer[..] == Filled(device, path, buffer.Length)
              && (err == ZxOk <==> AddressBody(device, path).Some?)
              && length == if AddressBody(device, path).Some? then 87 else oldLength
    ensures buffer.Length >= 98 ==>
              var key := device.publicKey(path);
              err == ZxOk <==> key.Some? && !device.encoderFails(device.sha256(Compress(key.value))[..28])
    ensures err == ZxOk ==>
              var pk := Compress(device.publicKey(path).value);
              buffer[..] == pk + Ascii(AddressOf(device, pk)) + ZeroBytes(buffer.Length - 87)
  {
    BodyIff(device, path);
    length := oldLength;
    if buffer.Length < PK_LEN_25519 + ADDRESS_MAX_LENGTH {
      return ZxBufferTooSmall, length;
    }
    Zero(buffer);
    err := ExtractPublicKey(device, path, buffer);
    if err != ZxOk {
      return;
    }
    var pk := buffer[..PK_LEN_25519];
    assert pk == Compress(device.publicKey(path).value);
    assert buffer[..] == pk + ZeroBytes(buffer.Length - 32);
    var n;
    err, n := PlaceAddress(device, buffer, pk);
    if err != ZxOk {
      Zero(buffer);
      return;
    }
    length := PK_LEN_25519 + n;
  }

  /** Computes the address of the key at the start of the buffer and copies its characters behind the key. */
  method PlaceAddress(device: Device, buffer: array<byte>, pk: Bytes32) returns (err: ZxErr, n: nat)
    requires buffer.Length >= 98 && buffer[..] == pk + ZeroBytes(buffer.Length - 32)
    modifies buffer
    ensures err == if device.encoderFails(Digest28(device, pk)) then ZxEncodingFailed else ZxOk
    ensures err == ZxOk ==> n == 55
    ensures err == ZxOk ==> buffer[..] == pk + AddressText(device, pk) + ZeroBytes(buffer.Length - 87)
  {
    n := 0;
    var address := new byte[ADDRESS_MAX_LENGTH](_ => 0);
    err := ComputeAddress(device, address, pk);
    if err != ZxOk {
      return;
    }
    n := StringLength(address);
    // The address array is no longer than the room left, so the C code's own length check cannot fail here.
    assert n <= buffer.Length - PK_LEN_25519;
    Store(buffer, PK_LEN_25519, address[..n]);
    ReplyLayout(pk, AddressText(device, pk), buffer.Length);
  }

  lemma ReplyLayout(pk: Bytes32, text: seq<byte>, total: nat)
    requires total >= 98 && |text| == 55
    ensures var before := pk + ZeroBytes(total - 32);
            before[..32] + text + before[87..] == pk + text + ZeroBytes(total - 87)
  {
    var before := pk + ZeroBytes(total - 32);
    assert before[..32] == pk && before[87..] == ZeroBytes(total - 87);
  }

  /** Among all printable strings, the address part of a reply is the only one that decodes to the truncated digest of
      the public key in the same reply. */
  lemma ReplyAddressDecodes(device: Device, path: Path, text: string)
    requires AddressBody(device, path).Some? && IsPrintable(text)
    ensures var body := AddressBody(device, path).value;
            Ascii(text) == body[32..] <==> Decode(HRP, text) == Some(device.sha256(body[..32])[..28])
  {
    var pk := Compress(device.publicKey(path).value);
    BodyParts(pk, AddressText(device, pk));
    TextDecodes(device, pk, text);
  }

  lemma BodyParts(pk: Bytes32, text: seq<byte>)
    ensures (pk + text)[..32] == pk && (pk + text)[32..] == text
  {
  }

  lemma TextDecodes(device: Device, pk: seq<byte>, text: string)
    requires IsPrintable(text)
    ensures Ascii(text) == AddressText(device, pk) <==> Decode(HRP, text) == Some(device.sha256(pk)[..28])
  {
    EncodingRoundTrip(HRP, text, Digest28(device, pk));
    AddressPrintable(device, pk);
    if Ascii(text) == AddressText(device, pk) {
      AsciiInjective(text, AddressOf(device, pk));
    }
  }

  /** No string that differs from an address in one, two or three characters decodes, wherever they are. */
  lemma ThreeTyposRejected(device: Device, pk: seq<byte>, text: string, i: nat, j: nat, k: nat)
    requires |text| == 55 && text != AddressOf(device, pk)
    requires forall m :: 0 <= m < 55 && m != i && m != j && m != k ==> text[m] == AddressOf(device, pk)[m]
    ensures Decode(HRP, text) == None
  {
    SubstitutionsRejected(HRP, Digest28(device, pk), text, i, j, k);
  }

  /** The characters of a byte string. */
  function Characters(bytes: seq<byte>): (r: string)
    ensures |r| == |bytes|
  {
    seq(|bytes|, i requires 0 <= i < |bytes| => bytes[i] as char)
  }

  lemma CharactersOfAscii(text: string)
    requires IsPrintable(text)
    ensures Characters(Ascii(text)) == text
  {
  }

  /** Behind the key in a reply stand exactly the characters of that key's address. */
  lemma BodyCharacters(device: Device, path: Path)
    requires AddressBody(device, path).Some?
    ensures var body := AddressBody(device, path).value;
            Characters(body[32..]) == AddressOf(device, body[..32])
  {
    var pk := Compress(device.publicKey(path).value);
    BodyParts(pk, AddressText(device, pk));
    AddressPrintable(device, pk);
    CharactersOfAscii(AddressOf(device, pk));
  }
}
