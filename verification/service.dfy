/** `EncryptionService`, the placeholder crypto façade the interface calls:
    parameter merging, dummy key tokens, and a reversible "encryption" that
    reverses the message, appends `|` and a key prefix, and base64-encodes
    the result. Every operation returns a result record and never throws. */
module EncryptionService {
  import opened Wrappers
  import opened Bytes
  import opened Base64
  import opened JsText

  // ---------------------------------------------------------------------
  // Records
  // ---------------------------------------------------------------------

  /** `LWEParameters`; JavaScript numbers are taken to be integers. */
  datatype LweParameters = LweParameters(dimension: int, modulus: int, errorBound: int, keySize: int)

  /** `Partial<LWEParameters>`: a field is either supplied or absent. */
  datatype PartialParameters = PartialParameters(
    dimension: Option<int>, modulus: Option<int>, errorBound: Option<int>, keySize: Option<int>)

  /** `KeyPair`; `generated` is the `Date` as milliseconds since the epoch. */
  datatype KeyPair = KeyPair(publicKey: JsString, privateKey: JsString, parameters: LweParameters, generated: int)

  datatype EncryptionResult = EncryptionResult(ciphertext: JsString, success: bool, error: Option<JsString>)

  datatype DecryptionResult = DecryptionResult(plaintext: JsString, success: bool, error: Option<JsString>)

  const DefaultParameters: LweParameters := LweParameters(512, 1024, 3, 256)

  // ---------------------------------------------------------------------
  // generateKeyPair
  // ---------------------------------------------------------------------

  /** Object spread `{ ...base, ...patch }`: a supplied field wins. */
  function Override(base: LweParameters, patch: PartialParameters): (p: LweParameters)
    ensures patch.dimension.None? ==> p.dimension == base.dimension
    ensures patch.modulus.None? ==> p.modulus == base.modulus
    ensures patch.errorBound.None? ==> p.errorBound == base.errorBound
    ensures patch.keySize.None? ==> p.keySize == base.keySize
    ensures patch.dimension.Some? ==> p.dimension == patch.dimension.value
    ensures patch.modulus.Some? ==> p.modulus == patch.modulus.value
    ensures patch.errorBound.Some? ==> p.errorBound == patch.errorBound.value
    ensures patch.keySize.Some? ==> p.keySize == patch.keySize.value
  {
    LweParameters(
      patch.dimension.GetOr(base.dimension),
      patch.modulus.GetOr(base.modulus),
      patch.errorBound.GetOr(base.errorBound),
      patch.keySize.GetOr(base.keySize))
  }

  /** `{ ...this.defaultParameters, ...customParams }`. */
  function Merge(custom: Option<PartialParameters>): (p: LweParameters)
    ensures custom.None? ==> p == DefaultParameters
  {
    match custom
    case None => DefaultParameters
    case Some(patch) => Override(DefaultParameters, patch)
  }

  const NoOverrides: PartialParameters := PartialParameters(None, None, None, None)

  function Supplied(p: LweParameters): PartialParameters {
    PartialParameters(Some(p.dimension), Some(p.modulus), Some(p.errorBound), Some(p.keySize))
  }

  /** An empty patch leaves the defaults, a complete one replaces them, and
      each supplied field is taken independently of the others. */
  lemma MergeOverrides(patch: PartialParameters, p: LweParameters)
    ensures Merge(Some(NoOverrides)) == DefaultParameters
    ensures Merge(Some(Supplied(p))) == p
    ensures var r := Merge(Some(patch));
      && (r.dimension == if patch.dimension.Some? then patch.dimension.value else 512)
      && (r.modulus == if patch.modulus.Some? then patch.modulus.value else 1024)
      && (r.errorBound == if patch.errorBound.Some? then patch.errorBound.value else 3)
      && (r.keySize == if patch.keySize.Some? then patch.keySize.value else 256)
  {
  }

  datatype KeyType = Pub | Priv

  function TypeName(t: KeyType): JsString {
    match t
    case Pub => Lit("pub")
    case Priv => Lit("priv")
  }

  /** Decimal digits of `n`, most significant first, without leading zeros. */
  function Digits(n: nat): (r: JsString)
    ensures |r| >= 1 && IsLatin1Text(r)
    ensures forall i | 0 <= i < |r| :: 48 <= r[i] <= 57
  {
    if n < 10 then [48 + n] else Digits(n / 10) + [48 + n % 10]
  }

  /** An integral JavaScript number as `JSON.stringify` writes it. */
  function NumberText(x: int): (r: JsString)
    ensures IsLatin1Text(r)
  {
    if x < 0 then [Minus] + Digits(-x) else Digits(x)
  }

  const JsonTypeOpen: JsString := Lit("{\"type\":\"")
  const JsonDimension: JsString := Lit("\",\"dimension\":")
  const JsonModulus: JsString := Lit(",\"modulus\":")
  const JsonTimestamp: JsString := Lit(",\"timestamp\":")
  const JsonClose: JsString := Lit("}")

  /** `JSON.stringify({ type, dimension, modulus, timestamp })`. */
  function KeyJson(t: KeyType, params: LweParameters, timestamp: int): (r: JsString)
    ensures IsLatin1Text(r) && |r| >= |JsonTypeOpen| + |TypeName(t)|
    ensures r[..|JsonTypeOpen|] == JsonTypeOpen
    ensures r[|JsonTypeOpen|..|JsonTypeOpen| + |TypeName(t)|] == TypeName(t)
  {
    var head := JsonTypeOpen + TypeName(t);
    var tail := JsonDimension + NumberText(params.dimension)
      + JsonModulus + NumberText(params.modulus)
      + JsonTimestamp + NumberText(timestamp) + JsonClose;
    assert IsLatin1Text(tail) by {
      Latin1Concat(JsonDimension, NumberText(params.dimension));
      var a := JsonDimension + NumberText(params.dimension);
      Latin1Concat(a, JsonModulus);
      Latin1Concat(a + JsonModulus, NumberText(params.modulus));
      var b := a + JsonModulus + NumberText(params.modulus);
      Latin1Concat(b, JsonTimestamp);
      Latin1Concat(b + JsonTimestamp, NumberText(timestamp));
      Latin1Concat(b + JsonTimestamp + NumberText(timestamp), JsonClose);
    }
    Latin1Concat(JsonTypeOpen, TypeName(t));
    Latin1Concat(head, tail);
    head + tail
  }

  /** `generateDummyKey`: the key record's JSON, base64-encoded, with `+`
      and `/` replaced by `-` and `_`; `timestamp` is `Date.now()`. The
      JSON is ASCII, so `btoa` cannot fail here. */
  function GenerateDummyKey(t: KeyType, params: LweParameters, timestamp: int): (key: JsString)
    ensures ValidateKeyDecode(key) == Some(KeyJson(t, params, timestamp))
    ensures IsLatin1Text(key)
  {
    var json := KeyJson(t, params, timestamp);
    var b64 := Btoa(json).value;
    BtoaAlphabet(json);
    assert HasNoUrlSafeChar(b64);
    FromUrlSafeToUrlSafe(b64);
    AtobBtoa(json);
    ToUrlSafe(b64)
  }

  /** The decoding half of `validateKey`: undo the substitution, then `atob`. */
  function ValidateKeyDecode(key: JsString): (r: Option<JsString>)
    ensures r.Some? ==> IsLatin1Text(r.value)
  {
    Atob(FromUrlSafe(key))
  }

  /** The record JSON of a public key differs from that of a private key. */
  lemma KeyJsonTypesDiffer(params: LweParameters, t1: int, t2: int)
    ensures KeyJson(Pub, params, t1) != KeyJson(Priv, params, t2)
  {
    var a, b := KeyJson(Pub, params, t1), KeyJson(Priv, params, t2);
    var k := |JsonTypeOpen|;
    assert a[k + 1] == TypeName(Pub)[1] == 117 by {
      assert a[k..k + 3][1] == a[k + 1];
    }
    assert b[k + 1] == TypeName(Priv)[1] == 114 by {
      assert b[k..k + 4][1] == b[k + 1];
    }
  }

  /** `generateKeyPair`: `timestampPub` and `timestampPriv` are the two
      `Date.now()` readings, `generated` is `new Date()`. */
  function GenerateKeyPair(custom: Option<PartialParameters>, timestampPub: int, timestampPriv: int,
                           generated: int): (kp: KeyPair)
    ensures kp.parameters == Merge(custom) && kp.generated == generated
    ensures kp.publicKey != kp.privateKey
    ensures ValidateKeyDecode(kp.publicKey) == Some(KeyJson(Pub, kp.parameters, timestampPub))
    ensures ValidateKeyDecode(kp.privateKey) == Some(KeyJson(Priv, kp.parameters, timestampPriv))
  {
    var parameters := Merge(custom);
    var publicKey := GenerateDummyKey(Pub, parameters, timestampPub);
    var privateKey := GenerateDummyKey(Priv, parameters, timestampPriv);
    KeyJsonTypesDiffer(parameters, timestampPub, timestampPriv);
    KeyPair(publicKey, privateKey, parameters, generated)
  }

  // ---------------------------------------------------------------------
  // encrypt / decrypt
  // ---------------------------------------------------------------------

  /** `publicKey.substring(0, 16)`. */
  function KeyPrefix(publicKey: JsString): (r: JsString)
    ensures r <= publicKey && |r| == if |publicKey| < 16 then |publicKey| else 16
  {
    if |publicKey| < 16 then publicKey else publicKey[..16]
  }

  /** The string `encrypt` hands to `btoa`: `${reversed}|${keyPrefix}`. */
  function Payload(message: JsString, publicKey: JsString): (r: JsString)
    ensures |r| == |message| + 1 + |KeyPrefix(publicKey)| && r[|message|] == Bar
    ensures Reverse(FirstSegment(r)) == AfterLastBar(message)
  {
    FirstSegmentStops(Reverse(message), KeyPrefix(publicKey));
    FirstSegmentReverse(message);
    ReverseReverse(AfterLastBar(message));
    Reverse(message) + [Bar] + KeyPrefix(publicKey)
  }

  lemma PayloadLatin1(message: JsString, publicKey: JsString)
    ensures IsLatin1Text(Payload(message, publicKey)) <==>
      IsLatin1Text(message) && IsLatin1Text(KeyPrefix(publicKey))
  {
    var p := Payload(message, publicKey);
    var r := Reverse(message);
    if IsLatin1Text(p) {
      forall i | 0 <= i < |message|
        ensures message[i] <= 0xFF
      {
        assert message[i] == r[|message| - 1 - i] == p[|message| - 1 - i];
      }
      forall i | 0 <= i < |KeyPrefix(publicKey)|
        ensures KeyPrefix(publicKey)[i] <= 0xFF
      {
        assert KeyPrefix(publicKey)[i] == p[|r| + 1 + i];
      }
    }
  }

  const EmptyMessageError: JsString := Lit("Message cannot be empty")
  const EncryptFailedPrefix: JsString := Lit("Encryption failed: ")
  const EmptyCiphertextError: JsString := Lit("Ciphertext cannot be empty")
  const DecryptFailedError: JsString := Lit("Decryption failed: Invalid ciphertext or key")

  /** `encrypt`. `btoaMessage` is the host's message for `btoa`'s
      InvalidCharacterError, which the `catch` appends to its prefix. */
  function Encrypt(message: JsString, publicKey: JsString, btoaMessage: JsString): (r: EncryptionResult)
    ensures IsBlank(message) ==> r == EncryptionResult([], false, Some(EmptyMessageError))
    ensures r.success <==> !IsBlank(message) && IsLatin1Text(message) && IsLatin1Text(KeyPrefix(publicKey))
    ensures r.success ==> r.error.None? && Atob(r.ciphertext) == Some(Payload(message, publicKey))
    ensures !r.success ==> r.ciphertext == [] && r.error.Some?
    ensures !IsBlank(message) && !r.success ==> r.error == Some(EncryptFailedPrefix + btoaMessage)
  {
    PayloadLatin1(message, publicKey);
    if |Trim(message)| == 0 then EncryptionResult([], false, Some(EmptyMessageError))
    else
      match Btoa(Payload(message, publicKey))
      case Some(encrypted) =>
        AtobBtoa(Payload(message, publicKey));
        EncryptionResult(encrypted, true, None)
      case None => EncryptionResult([], false, Some(EncryptFailedPrefix + btoaMessage))
  }

  /** `decrypt`. The private key is not read. */
  function Decrypt(ciphertext: JsString, privateKey: JsString): (r: DecryptionResult)
    ensures IsBlank(ciphertext) ==> r == DecryptionResult([], false, Some(EmptyCiphertextError))
    ensures r.success <==> !IsBlank(ciphertext) && Atob(ciphertext).Some?
    ensures !IsBlank(ciphertext) && Atob(ciphertext).None? ==>
      r == DecryptionResult([], false, Some(DecryptFailedError))
    ensures !r.success ==> r.plaintext == [] && r.error.Some?
    ensures r.success ==> && r.error.None? && HasNoBar(r.plaintext)
                          && Reverse(r.plaintext) <= Atob(ciphertext).value
                          && (|r.plaintext| < |Atob(ciphertext).value| ==>
                                Atob(ciphertext).value[|r.plaintext|] == Bar)
  {
    if |Trim(ciphertext)| == 0 then DecryptionResult([], false, Some(EmptyCiphertextError))
    else
      match Atob(ciphertext)
      case None => DecryptionResult([], false, Some(DecryptFailedError))
      case Some(decoded) => DecryptionResult(Unreverse(decoded), true, None)
  }

  /** `reversed.split('').reverse().join('')` of `decoded.split('|')[0]`:
      a `|`-free string whose reversal is the text before the first `|`. */
  function Unreverse(decoded: JsString): (r: JsString)
    ensures HasNoBar(r) && Reverse(r) <= decoded
    ensures |r| < |decoded| ==> decoded[|r|] == Bar
  {
    var segment := FirstSegment(decoded);
    assert Reverse(Reverse(segment)) == segment by {
      ReverseReverse(segment);
    }
    assert HasNoBar(Reverse(segment)) by {
      ReverseNoBar(segment);
    }
    Reverse(segment)
  }

  /** A successful ciphertext is never blank: it is non-empty base64 text. */
  lemma CiphertextNotBlank(message: JsString, publicKey: JsString, btoaMessage: JsString)
    requires Encrypt(message, publicKey, btoaMessage).success
    ensures !IsBlank(Encrypt(message, publicKey, btoaMessage).ciphertext)
  {
    var p := Payload(message, publicKey);
    assert IsLatin1Text(p) && |p| > 0 by {
      PayloadLatin1(message, publicKey);
    }
    assert Encrypt(message, publicKey, btoaMessage).ciphertext == Btoa(p).value;
    BtoaNotBlank(p);
  }

  /** Decrypting a ciphertext returns the part of the message after its
      last `|`, for any private key. */
  lemma DecryptEncryptAfterLastBar(message: JsString, publicKey: JsString, btoaMessage: JsString,
                                   privateKey: JsString)
    requires !IsBlank(message) && IsLatin1Text(message) && IsLatin1Text(KeyPrefix(publicKey))
    ensures Decrypt(Encrypt(message, publicKey, btoaMessage).ciphertext, privateKey) ==
      DecryptionResult(AfterLastBar(message), true, None)
  {
    var c := Encrypt(message, publicKey, btoaMessage).ciphertext;
    CiphertextNotBlank(message, publicKey, btoaMessage);
  }

  /** The round trip: a non-blank Latin-1 message without `|` comes back
      unchanged, whatever private key is supplied. */
  lemma DecryptEncrypt(message: JsString, publicKey: JsString, btoaMessage: JsString, privateKey: JsString)
    requires !IsBlank(message) && IsLatin1Text(message) && IsLatin1Text(KeyPrefix(publicKey))
    requires HasNoBar(message)
    ensures Decrypt(Encrypt(message, publicKey, btoaMessage).ciphertext, privateKey) ==
      DecryptionResult(message, true, None)
  {
    DecryptEncryptAfterLastBar(message, publicKey, btoaMessage, privateKey);
    AfterLastBarNoBar(message);
  }

  /** A non-blank ciphertext holding a character `atob` never accepts
      (such as `-` or `_`) is reported as invalid. */
  lemma DecryptRejectsForeign(ciphertext: JsString, privateKey: JsString)
    requires !IsBlank(ciphertext) && HasForeign(ciphertext)
    ensures Decrypt(ciphertext, privateKey) == DecryptionResult([], false, Some(DecryptFailedError))
  {
    ForgivingDecodeRejects(ciphertext);
  }

  /** `decrypt("not-a-valid-token", key)` fails as an invalid ciphertext. */
  lemma DecryptRejectsSample(privateKey: JsString)
    ensures Decrypt(Lit("not-a-valid-token"), privateKey) ==
      DecryptionResult([], false, Some(DecryptFailedError))
  {
    var c := Lit("not-a-valid-token");
    assert IsForeign(c[3]);
    assert !IsJsWhitespace(c[0]);
    DecryptRejectsForeign(c, privateKey);
  }

  const HelloLattice: JsString := Lit("Hello, Lattice!")

  lemma HelloLatticeText()
    ensures !IsBlank(HelloLattice) && IsLatin1Text(HelloLattice) && HasNoBar(HelloLattice)
  {
    assert !IsJsWhitespace(HelloLattice[0]);
  }

  /** The comma makes the message itself unreadable to `atob`. */
  lemma HelloLatticeNotBase64()
    ensures Atob(HelloLattice) == None
  {
    assert IsForeign(HelloLattice[5]);
    ForgivingDecodeRejects(HelloLattice);
  }

  /** The "Hello, Lattice!" scenario under default parameters: the token
      differs from the message and decrypting it with the paired private
      key gives the message back. */
  lemma HelloLatticeRoundTrip(timestampPub: int, timestampPriv: int, generated: int, btoaMessage: JsString)
    ensures var kp := GenerateKeyPair(None, timestampPub, timestampPriv, generated);
      var enc := Encrypt(HelloLattice, kp.publicKey, btoaMessage);
      && kp.parameters == DefaultParameters
      && enc.success && enc.ciphertext != HelloLattice
      && Decrypt(enc.ciphertext, kp.privateKey) == DecryptionResult(HelloLattice, true, None)
  {
    var kp := GenerateKeyPair(None, timestampPub, timestampPriv, generated);
    assert IsLatin1Text(KeyPrefix(kp.publicKey)) by {
      GeneratedKeyPrefixLatin1(Pub, DefaultParameters, timestampPub);
    }
    HelloLatticeText();
    HelloLatticeNotBase64();
    DecryptEncrypt(HelloLattice, kp.publicKey, btoaMessage, kp.privateKey);
  }

  /** Keys made by `generateKeyPair` are ASCII, so only the message decides
      whether `encrypt` succeeds. */
  lemma GeneratedKeyPrefixLatin1(t: KeyType, params: LweParameters, timestamp: int)
    ensures IsLatin1Text(KeyPrefix(GenerateDummyKey(t, params, timestamp)))
  {
    var key := GenerateDummyKey(t, params, timestamp);
    assert forall i | 0 <= i < |KeyPrefix(key)| :: KeyPrefix(key)[i] == key[i];
  }
}
