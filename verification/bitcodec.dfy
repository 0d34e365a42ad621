/** The character/bit codec of `LWEEncryption` (`_string_to_bits` and
    `_bits_to_string`). A Python string is a sequence of code points. */
module BitCodec {

  type Bit = b: int | 0 <= b <= 1

  /** A Python `str` element: a Unicode code point. */
  type PyChar = c: int | 0 <= c < 0x11_0000

  function Pow2(k: nat): (r: nat)
    ensures r > 0
  {
    if k == 0 then 1 else 2 * Pow2(k - 1)
  }

  /** The number a bit string denotes, most significant bit first. */
  function BitsValue(bits: seq<Bit>): (r: nat)
    ensures r < Pow2(|bits|)
  {
    if |bits| == 0 then 0 else 2 * BitsValue(bits[..|bits| - 1]) + bits[|bits| - 1]
  }

  /** `x` as exactly `w` binary digits, most significant first. */
  function FixedBits(x: nat, w: nat): (r: seq<Bit>)
    requires x < Pow2(w)
    ensures |r| == w
    ensures BitsValue(r) == x
  {
    if w == 0 then []
    else
      var r := FixedBits(x / 2, w - 1) + [x % 2];
      assert r[..w - 1] == FixedBits(x / 2, w - 1);
      r
  }

  /** The binary digit of `x` of weight 2^k. */
  function Digit(x: nat, k: nat): Bit {
    (x / Pow2(k)) % 2
  }

  /** Digit `j` of the eight-digit binary form of `c`, counted from the
      most significant end. */
  function MsbDigit(c: nat, j: nat): Bit
    requires j < 8
  {
    Digit(c, 7 - j)
  }

  /** Digit `j` of `FixedBits(x, w)` is the bit of weight 2^(w-1-j). */
  lemma {:induction false} FixedBitsDigit(x: nat, w: nat, j: nat)
    requires x < Pow2(w) && j < w
    ensures FixedBits(x, w)[j] == Digit(x, w - 1 - j)
  {
    if j < w - 1 {
      FixedBitsDigit(x / 2, w - 1, j);
      HalveDiv(x, Pow2(w - 2 - j));
    }
  }

  /** Halving first and then dividing by `b` is dividing by `2·b`. */
  lemma HalveDiv(x: nat, b: nat)
    requires b > 0
    ensures x / 2 / b == x / (2 * b)
  {
    var q, r := x / (2 * b), x % (2 * b);
    var qb := q * b;
    assert x == 2 * qb + r by {
      assert q * (2 * b) == 2 * qb;
    }
    assert x / 2 == qb + r / 2;
    DivUnique(x / 2, b, q, r / 2);
  }

  lemma MulLe(u: nat, v: nat, d: nat)
    requires u <= v
    ensures u * d <= v * d
  {
  }

  /** Division is determined by any quotient/remainder decomposition. */
  lemma DivUnique(x: nat, d: nat, q: nat, r: nat)
    requires d > 0 && r < d && x == q * d + r
    ensures x / d == q
  {
    var q' := x / d;
    if q' < q {
      MulLe(q' + 1, q, d);
    } else if q' > q {
      MulLe(q + 1, q', d);
    }
  }

  /** Python's `format(c, '08b')`: the binary digits of `c`, zero-padded on
      the left to eight; a code point of 256 or more keeps all its digits. */
  function Format08b(c: nat): (r: seq<Bit>)
    ensures |r| >= 8
    ensures |r| == 8 <==> c < 256
    ensures BitsValue(r) == c
    decreases c
  {
    if c < 256 then FixedBits(c, 8)
    else
      var r := Format08b(c / 2) + [c % 2];
      assert r[..|r| - 1] == Format08b(c / 2);
      r
  }

  /** `_string_to_bits`: the `'08b'` digits of every character, concatenated. */
  function StringToBits(text: seq<PyChar>): (bits: seq<Bit>)
    ensures |bits| >= 8 * |text|
  {
    if |text| == 0 then [] else Format08b(text[0]) + StringToBits(text[1..])
  }

  predicate IsLatin1(text: seq<PyChar>) {
    forall k | 0 <= k < |text| :: text[k] < 256
  }

  /** Every character of a Latin-1 text becomes exactly eight bits, most
      significant first, in the character's own slot. */
  lemma {:induction false} StringToBitsLatin1(text: seq<PyChar>)
    requires IsLatin1(text)
    ensures |StringToBits(text)| == 8 * |text|
    ensures forall k, j | 0 <= k < |text| && 0 <= j < 8 ::
      StringToBits(text)[8 * k + j] == MsbDigit(text[k], j)
  {
    if |text| > 0 {
      var bits := StringToBits(text);
      StringToBitsLatin1(text[1..]);
      forall k, j | 0 <= k < |text| && 0 <= j < 8
        ensures bits[8 * k + j] == MsbDigit(text[k], j)
      {
        if k == 0 {
          FixedBitsDigit(text[0], 8, j);
        } else {
          assert bits[8 * k + j] == StringToBits(text[1..])[8 * (k - 1) + j];
          assert text[k] == text[1..][k - 1];
        }
      }
    }
  }

  function Zeros(n: nat): (r: seq<Bit>)
    ensures |r| == n && forall i | 0 <= i < n :: r[i] == 0
  {
    seq(n, _ => 0)
  }

  /** The `while len(bits) % 8 != 0: bits.append(0)` loop. */
  function PadToBytes(bits: seq<Bit>): (r: seq<Bit>)
    ensures |r| % 8 == 0
    ensures bits <= r && |r| < |bits| + 8
    ensures forall i | |bits| <= i < |r| :: r[i] == 0
  {
    bits + Zeros((8 - |bits| % 8) % 8)
  }

  /** Every character is a non-zero byte value, 1..255. */
  predicate NonNulBytes(text: seq<PyChar>) {
    forall i | 0 <= i < |text| :: 1 <= text[i] <= 255
  }

  /** Each group of eight bits becomes the character with that value, except
      that groups of value 0 (NUL) are dropped. Applied to padded input only,
      so no incomplete group is ever left over. */
  function DecodeGroups(bits: seq<Bit>): (r: seq<PyChar>)
    ensures |r| <= |bits| / 8
    ensures NonNulBytes(r)
  {
    if |bits| < 8 then []
    else
      var v := BitsValue(bits[..8]);
      assert Pow2(8) == 256;
      (if v > 0 then [v] else []) + DecodeGroups(bits[8..])
  }

  /** `_bits_to_string`. */
  function BitsToString(bits: seq<Bit>): (r: seq<PyChar>)
    ensures |r| <= (|bits| + 7) / 8
    ensures NonNulBytes(r)
  {
    DecodeGroups(PadToBytes(bits))
  }

  predicate NoNul(text: seq<PyChar>) {
    forall k | 0 <= k < |text| :: 1 <= text[k]
  }

  /** `_bits_to_string` undoes `_string_to_bits` on Latin-1 text without NUL. */
  lemma {:induction false} BitsToStringOfStringToBits(text: seq<PyChar>)
    requires IsLatin1(text) && NoNul(text)
    ensures BitsToString(StringToBits(text)) == text
  {
    var bits := StringToBits(text);
    StringToBitsLatin1(text);
    MultipleOf8(|text|);
    assert PadToBytes(bits) == bits;
    DecodeGroupsOfStringToBits(text);
  }

  lemma MultipleOf8(n: nat)
    ensures (8 * n) % 8 == 0
  {
  }

  lemma {:induction false} DecodeGroupsOfStringToBits(text: seq<PyChar>)
    requires IsLatin1(text) && NoNul(text)
    ensures DecodeGroups(StringToBits(text)) == text
  {
    StringToBitsLatin1(text);
    if |text| > 0 {
      var bits := StringToBits(text);
      assert bits[..8] == Format08b(text[0]);
      assert bits[8..] == StringToBits(text[1..]);
      DecodeGroupsOfStringToBits(text[1..]);
      assert text == [text[0]] + text[1..];
    }
  }

  /** The source's own loop: pad, then for every group of eight accumulate
      `bit * 2 ** (7 - j)` and keep non-zero values. */
  method BitsToStringLoop(bits: seq<Bit>) returns (r: seq<PyChar>)
    ensures r == BitsToString(bits)
  {
    var padded := PadLoop(bits);
    r := [];
    var i := 0;
    while i < |padded|
      invariant 0 <= i <= |padded| && (|padded| - i) % 8 == 0
      invariant r + DecodeGroups(padded[i..]) == DecodeGroups(padded)
    {
      var val := GroupValue(padded[i..i + 8]);
      r := AppendGroup(r, padded, i, val);
      i := i + 8;
    }
  }

  /** One iteration of the outer loop: keep `val` unless it is zero. */
  method AppendGroup(r: seq<PyChar>, padded: seq<Bit>, i: nat, val: nat) returns (r': seq<PyChar>)
    requires i + 8 <= |padded|
    requires val == BitsValue(padded[i..i + 8])
    ensures r' + DecodeGroups(padded[i + 8..]) == r + DecodeGroups(padded[i..])
  {
    DecodeGroupsStep(padded, i);
    r' := if val > 0 then r + [val] else r;
  }

  lemma DecodeGroupsStep(p: seq<Bit>, i: nat)
    requires i + 8 <= |p|
    ensures DecodeGroups(p[i..]) ==
      (if BitsValue(p[i..i + 8]) > 0 then [BitsValue(p[i..i + 8])] else []) + DecodeGroups(p[i + 8..])
  {
    assert p[i..][..8] == p[i..i + 8] && p[i..][8..] == p[i + 8..];
  }

  /** `while len(bits) % 8 != 0: bits.append(0)` */
  method PadLoop(bits: seq<Bit>) returns (padded: seq<Bit>)
    ensures padded == PadToBytes(bits)
  {
    padded := bits;
    while |padded| % 8 != 0
      invariant bits <= padded && |padded| <= |bits| + 8
      invariant forall i | |bits| <= i < |padded| :: padded[i] == 0
      invariant |padded| % 8 != 0 ==> |padded| < |bits| + (8 - |bits| % 8) % 8
      invariant |padded| % 8 == 0 ==> |padded| == |bits| + (8 - |bits| % 8) % 8
      decreases |bits| + 8 - |padded|
    {
      padded := padded + [0];
    }
  }

  /** `val += bit * (2 ** (7 - j))` over the eight bits of one group. */
  method GroupValue(group: seq<Bit>) returns (val: nat)
    requires |group| == 8
    ensures val == BitsValue(group) && val < 256
  {
    val := 0;
    var j := 0;
    while j < 8
      invariant 0 <= j <= 8
      invariant val == BitsValue(group[..j]) * Pow2(8 - j)
    {
      var prefix := BitsValue(group[..j]);
      assert BitsValue(group[..j + 1]) == 2 * prefix + group[j] by {
        assert group[..j + 1][..j] == group[..j];
      }
      assert val + group[j] * Pow2(7 - j) == (2 * prefix + group[j]) * Pow2(7 - j) by {
        AccumulateStep(prefix, group[j], 7 - j);
      }
      val := val + group[j] * Pow2(7 - j);
      j := j + 1;
    }
    assert group[..8] == group;
    assert Pow2(8) == 256;
  }

  lemma AccumulateStep(prefix: nat, bit: Bit, k: nat)
    ensures prefix * Pow2(k + 1) + bit * Pow2(k) == (2 * prefix + bit) * Pow2(k)
  {
    assert Pow2(k + 1) == 2 * Pow2(k);
  }
}
