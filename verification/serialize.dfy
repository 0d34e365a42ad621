/** Byte layouts of the KEM layer: `serialize_ct`, `ct_equal`
    and the 4-byte length framing inside `H`. Each layout
    comes with a parser that inverts it, which is what makes equality of
    encodings mean equality of values. */
module Serialize {
  import opened Wrappers
  import opened Bytes
  import opened Lwe

  const CtTag: seq<Byte> := [67, 84]  // b"CT"

  // ---------------------------------------------------------------------
  // serialize_ct / ct_equal
  // ---------------------------------------------------------------------

  /** What `serialize_ct` can encode without an OverflowError: a pair count
      and every `u` byte length below 2^32, every `v` in `[0, 2^64)`. */
  predicate Serializable(ct: seq<CtPair>) {
    && |ct| < Pow256(4)
    && forall k | 0 <= k < |ct| :: 4 * |ct[k].u| < Pow256(4) && 0 <= ct[k].v < Pow256(8)
  }

  predicate Int32Entries(ct: seq<CtPair>) {
    forall k | 0 <= k < |ct| :: AllInt32(ct[k].u)
  }

  /** Encoded size of the pairs: 4 length bytes, `4·len(u)` bytes, 8 bytes of `v`. */
  function PairsSize(ct: seq<CtPair>): nat {
    if |ct| == 0 then 0 else 12 + 4 * |ct[0].u| + PairsSize(ct[1..])
  }

  /** One pair: `len(u_bytes)` (4 bytes, big-endian), `u_bytes`, `v` (8 bytes, big-endian, unsigned). */
  function SerializePair(order: ByteOrder, c: CtPair): (r: Result<seq<Byte>>)
    ensures r.Ok? <==> 4 * |c.u| < Pow256(4) && 0 <= c.v < Pow256(8)
    ensures r.Ok? ==> |r.value| == 12 + 4 * |c.u|
  {
    var uBytes := Int32sBytes(order, c.u);
    var len :- ToBytesBig(|uBytes|, 4);
    var v :- ToBytesBig(c.v, 8);
    Ok(len + uBytes + v)
  }

  function SerializePairs(order: ByteOrder, ct: seq<CtPair>): (r: Result<seq<Byte>>)
    ensures r.Ok? <==> forall k | 0 <= k < |ct| :: 4 * |ct[k].u| < Pow256(4) && 0 <= ct[k].v < Pow256(8)
    ensures r.Ok? ==> |r.value| == PairsSize(ct)
  {
    if |ct| == 0 then Ok([])
    else
      var first :- SerializePair(order, ct[0]);
      var rest :- SerializePairs(order, ct[1..]);
      assert forall k | 1 <= k < |ct| :: ct[k] == ct[1..][k - 1];
      Ok(first + rest)
  }

  /** `serialize_ct`: `"CT"`, the pair count (4 bytes, big-endian), the pairs. */
  function SerializeCt(order: ByteOrder, ct: seq<CtPair>): (r: Result<seq<Byte>>)
    ensures r.Ok? <==> Serializable(ct)
    ensures r.Ok? ==> && |r.value| == 6 + PairsSize(ct)
                      && r.value[..2] == CtTag
                      && DecodeBE(r.value[2..6]) == |ct|
  {
    var count :- ToBytesBig(|ct|, 4);
    var body :- SerializePairs(order, ct);
    var out := CtTag + count + body;
    assert out[2..6] == count;
    Ok(out)
  }

  /** `ct_equal`: compares the two encodings; an OverflowError in either
      serialisation propagates. */
  function CtEqual(order: ByteOrder, a: seq<CtPair>, b: seq<CtPair>): (r: Result<bool>)
    ensures r.Ok? <==> Serializable(a) && Serializable(b)
  {
    var sa :- SerializeCt(order, a);
    var sb :- SerializeCt(order, b);
    Ok(sa == sb)
  }

  /** Reads `count` pairs and requires the input to end exactly after them. */
  function ParsePairs(order: ByteOrder, count: nat, bs: seq<Byte>): Option<seq<CtPair>>
    decreases count
  {
    if count == 0 then (if |bs| == 0 then Some([]) else None)
    else if |bs| < 4 then None
    else
      var len := DecodeBE(bs[..4]);
      if |bs| < 12 + len || len % 4 != 0 then None
      else
        var u := Int32sFromBytes(order, bs[4..4 + len]);
        var v := DecodeBE(bs[4 + len..12 + len]);
        var rest :- ParsePairs(order, count - 1, bs[12 + len..]);
        Some([CtPair(u, v)] + rest)
  }

  /** Inverse of `serialize_ct`. */
  function ParseCt(order: ByteOrder, bs: seq<Byte>): Option<seq<CtPair>> {
    if |bs| < 6 || bs[..2] != CtTag then None
    else ParsePairs(order, DecodeBE(bs[2..6]), bs[6..])
  }

  lemma FourTimesMod(k: nat)
    ensures (4 * k) % 4 == 0
  {
  }

  /** Parsing one encoded pair off the front of the input. */
  lemma ParsePairStep(order: ByteOrder, c: CtPair, cs: seq<CtPair>, rest: seq<Byte>)
    requires SerializePair(order, c).Ok? && AllInt32(c.u)
    requires ParsePairs(order, |cs|, rest) == Some(cs)
    ensures ParsePairs(order, |cs| + 1, SerializePair(order, c).value + rest) == Some([c] + cs)
  {
    var uBytes := Int32sBytes(order, c.u);
    var len := ToBytesBig(|uBytes|, 4).value;
    var v := ToBytesBig(c.v, 8).value;
    assert SerializePair(order, c).value == len + uBytes + v;
    FourTimesMod(|c.u|);
    Int32sRoundTrip(order, c.u);
    ParsePairBytes(order, |cs| + 1, len, uBytes, v, rest);
  }

  /** The parser's view of one pair: a length field, that many bytes of
      `u`, eight bytes of `v`. */
  lemma ParsePairBytes(order: ByteOrder, count: nat, len: seq<Byte>, uBytes: seq<Byte>, v: seq<Byte>, rest: seq<Byte>)
    requires count > 0 && |len| == 4 && DecodeBE(len) == |uBytes| && |uBytes| % 4 == 0 && |v| == 8
    ensures var tail := ParsePairs(order, count - 1, rest);
      ParsePairs(order, count, len + uBytes + v + rest) ==
      (if tail.Some? then Some([CtPair(Int32sFromBytes(order, uBytes), DecodeBE(v))] + tail.value) else None)
  {
    var bs := len + uBytes + v + rest;
    var L := |uBytes|;
    assert bs[..4] == len;
    assert bs[4..4 + L] == uBytes;
    assert bs[4 + L..12 + L] == v;
    assert bs[12 + L..] == rest;
  }

  /** The encoding of a non-empty pair list is its first pair's encoding
      followed by the rest's. */
  lemma SerializePairsCons(order: ByteOrder, ct: seq<CtPair>)
    requires |ct| > 0 && SerializePairs(order, ct).Ok?
    ensures SerializePair(order, ct[0]).Ok? && SerializePairs(order, ct[1..]).Ok?
    ensures SerializePairs(order, ct).value ==
      SerializePair(order, ct[0]).value + SerializePairs(order, ct[1..]).value
  {
  }

  lemma Int32EntriesTail(ct: seq<CtPair>)
    requires |ct| > 0 && Int32Entries(ct)
    ensures AllInt32(ct[0].u) && Int32Entries(ct[1..])
  {
    assert forall k | 0 <= k < |ct[1..]| :: ct[1..][k] == ct[k + 1];
  }

  lemma {:induction false} ParseSerializePairs(order: ByteOrder, ct: seq<CtPair>)
    requires SerializePairs(order, ct).Ok? && Int32Entries(ct)
    ensures ParsePairs(order, |ct|, SerializePairs(order, ct).value) == Some(ct)
  {
    if |ct| > 0 {
      SerializePairsCons(order, ct);
      Int32EntriesTail(ct);
      ParseSerializePairs(order, ct[1..]);
      ParsePairStep(order, ct[0], ct[1..], SerializePairs(order, ct[1..]).value);
      assert [ct[0]] + ct[1..] == ct;
    }
  }

  /** Parsing inverts `serialize_ct` on ciphertexts with `int32` entries. */
  lemma ParseSerializeCt(order: ByteOrder, ct: seq<CtPair>)
    requires Serializable(ct) && Int32Entries(ct)
    ensures SerializeCt(order, ct).Ok?
    ensures ParseCt(order, SerializeCt(order, ct).value) == Some(ct)
  {
    var out := SerializeCt(order, ct).value;
    var body := SerializePairs(order, ct).value;
    assert out[6..] == body;
    ParseSerializePairs(order, ct);
  }

  /** `ct_equal` is equality for ciphertexts it can serialise whose
      entries are `int32` values, as every ciphertext `encrypt` makes is. */
  lemma CtEqualIsEquality(order: ByteOrder, a: seq<CtPair>, b: seq<CtPair>)
    requires Serializable(a) && Int32Entries(a)
    requires Serializable(b) && Int32Entries(b)
    ensures CtEqual(order, a, b) == Ok(a == b)
  {
    ParseSerializeCt(order, a);
    ParseSerializeCt(order, b);
  }

  // ---------------------------------------------------------------------
  // H: length-prefixed SHAKE-256
  // ---------------------------------------------------------------------

  /** What `H` feeds to SHAKE-256: every part preceded by its length as 4
      big-endian bytes. A part of 2^32 bytes or more raises OverflowError. */
  function Frame(parts: seq<seq<Byte>>): (r: Result<seq<Byte>>)
    ensures r.Ok? <==> forall k | 0 <= k < |parts| :: |parts[k]| < Pow256(4)
  {
    if |parts| == 0 then Ok([])
    else
      var len :- ToBytesBig(|parts[0]|, 4);
      var rest :- Frame(parts[1..]);
      assert forall k | 1 <= k < |parts| :: parts[k] == parts[1..][k - 1];
      Ok(len + parts[0] + rest)
  }

  /** Splits a framed byte string back into its parts. */
  function Unframe(bs: seq<Byte>): Option<seq<seq<Byte>>>
    decreases |bs|
  {
    if |bs| == 0 then Some([])
    else if |bs| < 4 then None
    else
      var len := DecodeBE(bs[..4]);
      if |bs| < 4 + len then None
      else
        var rest :- Unframe(bs[4 + len..]);
        Some([bs[4..4 + len]] + rest)
  }

  lemma {:induction false} UnframeFrame(parts: seq<seq<Byte>>)
    requires Frame(parts).Ok?
    ensures Unframe(Frame(parts).value) == Some(parts)
  {
    if |parts| > 0 {
      var len := ToBytesBig(|parts[0]|, 4).value;
      var rest := Frame(parts[1..]).value;
      var bs := Frame(parts).value;
      assert bs[..4] == len && bs[4..4 + |parts[0]|] == parts[0] && bs[4 + |parts[0]|..] == rest by {
        assert bs == len + parts[0] + rest;
      }
      UnframeFrame(parts[1..]);
      assert Unframe(bs) == Some([parts[0]] + parts[1..]);
      assert parts == [parts[0]] + parts[1..];
    }
  }

  /** `H(*parts, outlen)`, with SHAKE-256 passed in as `shake`. Feeding
      the framed parts one `update` at a time hashes their concatenation. */
  function H(shake: (seq<Byte>, nat) -> seq<Byte>, parts: seq<seq<Byte>>, outlen: nat): (r: Result<seq<Byte>>)
    ensures r.Ok? <==> forall k | 0 <= k < |parts| :: |parts[k]| < Pow256(4)
  {
    var framed :- Frame(parts);
    Ok(shake(framed, outlen))
  }

  /** Distinct part lists reach SHAKE-256 as distinct inputs: the framing
      is unambiguous, so `H(b"ab", b"c")` and `H(b"a", b"bc")` differ unless
      SHAKE-256 itself collides. */
  lemma HFramingInjective(shake: (seq<Byte>, nat) -> seq<Byte>, p1: seq<seq<Byte>>, p2: seq<seq<Byte>>, outlen: nat)
    requires Frame(p1).Ok? && Frame(p2).Ok? && p1 != p2
    ensures Frame(p1).value != Frame(p2).value
    ensures H(shake, p1, outlen) == Ok(shake(Frame(p1).value, outlen))
    ensures H(shake, p2, outlen) == Ok(shake(Frame(p2).value, outlen))
  {
    UnframeFrame(p1);
    UnframeFrame(p2);
  }
}
