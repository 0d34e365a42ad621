/** `LWEAdapter`, the bridge from the KEM layer's 32-byte seeds to the
    text-based LWE scheme, and the demo's `xor_encrypt_decrypt`. */
module Adapter {
  import opened Wrappers
  import opened Bytes
  import opened BitCodec
  import opened Base64
  import opened Lwe

  /** The KEM message and key width. */
  const SeedLen: nat := 32

  /** `msg.ljust(32, b"\x00")[:32]`. */
  function Normalise(msg: seq<Byte>): (r: seq<Byte>)
    ensures |r| == SeedLen
    ensures |msg| >= SeedLen ==> r == msg[..SeedLen]
    ensures |msg| < SeedLen ==> r[..|msg|] == msg && r[|msg|..] == Zeros(SeedLen - |msg|)
  {
    if |msg| >= SeedLen then msg[..SeedLen] else msg + Zeros(SeedLen - |msg|)
  }

  /** `str.encode("ascii")`: fails on any code point of 128 or more. */
  function AsciiEncode(text: seq<PyChar>): (r: Option<seq<Byte>>)
    ensures r.Some? <==> forall i | 0 <= i < |text| :: text[i] < 128
    ensures r.Some? ==> r.value == text
  {
    if forall i | 0 <= i < |text| :: text[i] < 128 then Some(text) else None
  }

  /** The bytes the decrypted text stands for, or 32 zero bytes when it is
      not ASCII or not valid base64 (the `except` branch). */
  function DecodeSeed(text: seq<PyChar>): (msg: seq<Byte>)
    ensures (AsciiEncode(text).None? || PyB64Decode(AsciiEncode(text).value).Raise?) ==> msg == Zeros(SeedLen)
    ensures AsciiEncode(text).Some? && PyB64Decode(AsciiEncode(text).value).Ok? ==>
      msg == PyB64Decode(AsciiEncode(text).value).value
  {
    match AsciiEncode(text)
    case None => Zeros(SeedLen)
    case Some(raw) =>
      match PyB64Decode(raw)
      case Ok(m) => m
      case Raise(_) => Zeros(SeedLen)
  }

  /** `LWEAdapter.decrypt`. The `sk` argument is unused: the scheme
      decrypts with the private key it holds. An exception from the inner
      `decrypt` is outside the `try` and propagates. */
  function AdapterDecrypt(lwe: Lwe, ct: seq<CtPair>): (r: Result<seq<Byte>>)
    requires Valid(lwe)
    ensures r.Ok? <==> Decrypt(lwe, ct).Ok?
    ensures r.Ok? ==> |r.value| == SeedLen
    ensures r.Ok? ==> r.value == Normalise(DecodeSeed(Decrypt(lwe, ct).value))
  {
    var text :- Decrypt(lwe, ct);
    Ok(Normalise(DecodeSeed(text)))
  }

  /** A failed base64 decode comes out as 32 zero bytes, the value that
      sends decapsulation down its rejection path. */
  lemma AdapterDecryptRejects(lwe: Lwe, ct: seq<CtPair>)
    requires Valid(lwe) && Decrypt(lwe, ct).Ok?
    requires var raw := AsciiEncode(Decrypt(lwe, ct).value);
      raw.None? || PyB64Decode(raw.value).Raise?
    ensures AdapterDecrypt(lwe, ct) == Ok(Zeros(SeedLen))
  {
    assert Zeros(SeedLen)[..SeedLen] == Zeros(SeedLen);
  }

  /** The text `encrypt_det` hands to the scheme: the base64 image of the seed. */
  function SeedText(msg: seq<Byte>): (t: seq<PyChar>)
    ensures IsLatin1(t) && NoNul(t)
    ensures |t| == |Encode(msg)|
  {
    EncodeAscii(msg);
    Encode(msg)
  }

  /** `LWEAdapter.encrypt_det`: the coins only seed the random generators,
      so here they are replaced by the subsets those generators draw. The
      `pk` argument is unused: the scheme encrypts with the key it holds. */
  function EncryptDet(lwe: Lwe, msg: seq<Byte>, subsets: seq<seq<nat>>): (r: Result<seq<CtPair>>)
    requires Valid(lwe)
    requires |subsets| == 8 * |Encode(msg)|
    requires forall k | 0 <= k < |subsets| :: IsSample(subsets[k], lwe.n, lwe.M())
    ensures r.Ok? <==> lwe.publicKey.Some?
    ensures r.Ok? ==> |r.value| == 8 * |Encode(msg)| && WellFormedCt(r.value, lwe.n, lwe.q)
  {
    var t := SeedText(msg);
    StringToBitsLatin1(t);
    Encrypt(lwe, t, subsets)
  }

  /** The adapter round trip under bounded noise: a 32-byte seed encrypted
      with `encrypt_det` is what `decrypt` returns. */
  lemma AdapterRoundTrip(lwe: Lwe, s: seq<int>, a: seq<seq<int>>, e: seq<int>,
                         msg: seq<Byte>, subsets: seq<seq<nat>>)
    requires FitsInt32(lwe.n, lwe.q) && IsBinary(s, lwe.n)
    requires IsMatrix(a, lwe.M(), lwe.n, lwe.q) && IsVector(e, lwe.M(), lwe.q)
    requires |msg| == SeedLen
    requires |subsets| == 8 * |Encode(msg)|
    requires forall k | 0 <= k < |subsets| :: IsSample(subsets[k], lwe.n, lwe.M())
    requires forall k | 0 <= k < |subsets| :: SmallNoise(e, subsets[k], lwe.q)
    ensures var keyed := GenerateKeys(lwe, s, a, e).0;
      var ct := EncryptDet(keyed, msg, subsets);
      ct.Ok? && AdapterDecrypt(keyed, ct.value) == Ok(msg)
  {
    var keyed := GenerateKeys(lwe, s, a, e).0;
    var t := SeedText(msg);
    assert |subsets| == |StringToBits(t)| by {
      StringToBitsLatin1(t);
    }
    var ct := Encrypt(keyed, t, subsets);
    assert EncryptDet(keyed, msg, subsets) == ct;
    assert ct.Ok? && Decrypt(keyed, ct.value) == Ok(t) by {
      DecryptEncrypt(lwe, s, a, e, t, subsets);
    }
    AdapterDecryptSeedText(keyed, ct.value, msg);
  }

  /** Once the scheme hands back the seed's base64 text, the adapter
      returns the seed itself. */
  lemma AdapterDecryptSeedText(lwe: Lwe, ct: seq<CtPair>, msg: seq<Byte>)
    requires Valid(lwe) && |msg| == SeedLen
    requires Decrypt(lwe, ct) == Ok(SeedText(msg))
    ensures AdapterDecrypt(lwe, ct) == Ok(msg)
  {
    var t := SeedText(msg);
    assert DecodeSeed(t) == msg by {
      EncodeAscii(msg);
      assert AsciiEncode(t) == Some(Encode(msg));
      PyB64DecodeEncode(msg);
    }
    assert Normalise(msg) == msg by {
      assert msg[..SeedLen] == msg;
    }
  }

  // ---------------------------------------------------------------------
  // xor_encrypt_decrypt
  // ---------------------------------------------------------------------

  /** Python's `^` on the low `k` bits: bit by bit, least significant first. */
  function Xor(x: nat, y: nat, k: nat): (z: nat)
    ensures z < Pow2(k)
  {
    if k == 0 then 0 else (x % 2 + y % 2) % 2 + 2 * Xor(x / 2, y / 2, k - 1)
  }

  /** `m ^ k` on two bytes. */
  function XorByte(x: Byte, y: Byte): (z: Byte) {
    assert Pow2(8) == 256;
    Xor(x, y, 8)
  }

  /** XOR with the same value twice is the identity. */
  lemma {:induction false} XorCancel(x: nat, y: nat, k: nat)
    requires x < Pow2(k)
    ensures Xor(Xor(x, y, k), y, k) == x
  {
    if k > 0 {
      var b, h := (x % 2 + y % 2) % 2, Xor(x / 2, y / 2, k - 1);
      var z := Xor(x, y, k);
      assert z == b + 2 * h;
      assert z % 2 == b && z / 2 == h by {
        HalfOf(b, h);
      }
      assert Xor(h, y / 2, k - 1) == x / 2 by {
        XorCancel(x / 2, y / 2, k - 1);
      }
      assert (b + y % 2) % 2 == x % 2;
    }
  }

  lemma HalfOf(b: nat, h: nat)
    requires b < 2
    ensures (b + 2 * h) % 2 == b && (b + 2 * h) / 2 == h
  {
  }

  lemma XorByteCancel(x: Byte, y: Byte)
    ensures XorByte(XorByte(x, y), y) == x
  {
    assert Pow2(8) == 256;
    XorCancel(x, y, 8);
  }

  const ModuloByZero: string := "ZeroDivisionError: integer modulo by zero"

  /** `key[i % len(key)]`: the key repeated as often as needed. */
  function KeyByte(key: seq<Byte>, i: nat): Byte
    requires |key| > 0
  {
    key[i % |key|]
  }

  /** `xor_encrypt_decrypt`: byte `i` of `msg` XOR byte `i mod len(key)` of
      `key`. An empty key with a non-empty message divides by zero. */
  function XorCipher(msg: seq<Byte>, key: seq<Byte>): (r: Result<seq<Byte>>)
    ensures r.Ok? <==> |key| > 0 || |msg| == 0
    ensures r.Ok? ==> |r.value| == |msg|
  {
    if |msg| == 0 then Ok([])
    else if |key| == 0 then Raise(ModuloByZero)
    else Ok(XorStream(msg, key))
  }

  /** The comprehension itself, once the key is known to be non-empty. */
  function XorStream(msg: seq<Byte>, key: seq<Byte>): (r: seq<Byte>)
    requires |key| > 0
    ensures |r| == |msg|
  {
    seq(|msg|, i requires 0 <= i < |msg| => XorByte(msg[i], KeyByte(key, i)))
  }

  /** With a non-empty key the cipher is its own inverse. */
  lemma XorInvolution(msg: seq<Byte>, key: seq<Byte>)
    requires |key| > 0
    ensures XorCipher(msg, key).Ok?
    ensures XorCipher(XorCipher(msg, key).value, key) == Ok(msg)
  {
    if |msg| > 0 {
      var once := XorCipher(msg, key).value;
      var twice := XorCipher(once, key).value;
      forall i | 0 <= i < |msg|
        ensures twice[i] == msg[i]
      {
        XorByteCancel(msg[i], KeyByte(key, i));
      }
      assert twice == msg;
    }
  }
}
