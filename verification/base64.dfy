/** Base64 as both halves of the system use it: the encoder of section 4 of
    RFC 4648 (standard alphabet, `=` padding), the browser's `atob` decoder
    (the forgiving-base64 decode of the WHATWG Infra Standard) and Python's
    `base64.b64decode(s, validate=True)`.

    Characters are integers (ASCII codes or UTF-16 code units); the encoder
    emits ASCII codes, which are also byte values. */
module Base64 {
  import opened Wrappers
  import opened Bytes

  const PadChar: Byte := 61  // '='

  /** The 64 characters of the standard alphabet (RFC 4648, table 1). */
  predicate IsAlphabetChar(c: int) {
    (65 <= c <= 90) || (97 <= c <= 122) || (48 <= c <= 57) || c == 43 || c == 47
  }

  predicate AllAlphabet(cs: seq<int>) {
    forall i | 0 <= i < |cs| :: IsAlphabetChar(cs[i])
  }

  predicate IsSextet(v: int) {
    0 <= v < 64
  }

  predicate AllSextets(vs: seq<int>) {
    forall i | 0 <= i < |vs| :: IsSextet(vs[i])
  }

  function Alphabet(v: int): (c: Byte)
    requires IsSextet(v)
    ensures IsAlphabetChar(c)
  {
    if v < 26 then 65 + v
    else if v < 52 then 97 + (v - 26)
    else if v < 62 then 48 + (v - 52)
    else if v == 62 then 43
    else 47
  }

  /** The 6-bit value an alphabet character stands for. */
  function CharValue(c: int): (v: int)
    requires IsAlphabetChar(c)
    ensures IsSextet(v)
    ensures Alphabet(v) == c
  {
    if 65 <= c <= 90 then c - 65
    else if 97 <= c <= 122 then c - 97 + 26
    else if 48 <= c <= 57 then c - 48 + 52
    else if c == 43 then 62
    else 63
  }

  /** `CharValue` inverts `Alphabet`: the alphabet has no repeated character. */
  lemma AlphabetInjective(v: int)
    requires IsSextet(v)
    ensures CharValue(Alphabet(v)) == v
  {
  }

  function Values(cs: seq<int>): (vs: seq<int>)
    requires AllAlphabet(cs)
    ensures |vs| == |cs| && AllSextets(vs)
  {
    seq(|cs|, i requires 0 <= i < |cs| => CharValue(cs[i]))
  }

  function Chars(vs: seq<int>): (cs: seq<Byte>)
    requires AllSextets(vs)
    ensures |cs| == |vs| && AllAlphabet(cs)
  {
    seq(|vs|, i requires 0 <= i < |vs| => Alphabet(vs[i]))
  }

  /** The 6-bit groups of `bs`, most significant bits first; a final group of
      one or two bytes is filled up with zero bits to a whole sextet. */
  function Sextets(bs: seq<Byte>): (vs: seq<int>)
    ensures AllSextets(vs)
  {
    if |bs| >= 3 then
      [bs[0] / 4, (bs[0] % 4) * 16 + bs[1] / 16, (bs[1] % 16) * 4 + bs[2] / 64, bs[2] % 64]
        + Sextets(bs[3..])
    else if |bs| == 2 then
      [bs[0] / 4, (bs[0] % 4) * 16 + bs[1] / 16, (bs[1] % 16) * 4]
    else if |bs| == 1 then
      [bs[0] / 4, (bs[0] % 4) * 16]
    else
      []
  }

  /** Number of characters a final group of `r` leftover bytes produces. */
  function TailChars(r: nat): nat {
    if r == 0 then 0 else r + 1
  }

  /** Number of `=` characters the encoder appends for `n` input bytes. */
  function PadCount(n: nat): nat {
    if n % 3 == 0 then 0 else 3 - n % 3
  }

  /** RFC 4648 section 4 encoding with padding: what `btoa` and Python's
      `base64.b64encode` produce. */
  function Encode(bs: seq<Byte>): (r: seq<Byte>)
    ensures |r| % 4 == 0
    ensures |r| == 4 * ((|bs| + 2) / 3)
  {
    SextetsLength(bs);
    Chars(Sextets(bs)) + seq(PadCount(|bs|), _ => PadChar)
  }

  lemma {:induction false} SextetsLength(bs: seq<Byte>)
    ensures |Sextets(bs)| == 4 * (|bs| / 3) + TailChars(|bs| % 3)
  {
    if |bs| >= 3 {
      SextetsLength(bs[3..]);
    }
  }

  /** Reassembles bytes from 6-bit groups, four groups to three bytes. A
      final group of three (two) sextets carries two (one) bytes and its
      leftover low bits are dropped. A lone final sextet cannot occur: both
      decoders reject such input before they get here. */
  function DecodeSextets(vs: seq<int>): (bs: seq<Byte>)
    requires AllSextets(vs)
    ensures |bs| == 3 * |vs| / 4
  {
    if |vs| >= 4 then
      [vs[0] * 4 + vs[1] / 16, (vs[1] % 16) * 16 + vs[2] / 4, (vs[2] % 4) * 64 + vs[3]]
        + DecodeSextets(vs[4..])
    else if |vs| == 3 then
      [vs[0] * 4 + vs[1] / 16, (vs[1] % 16) * 16 + vs[2] / 4]
    else if |vs| == 2 then
      [vs[0] * 4 + vs[1] / 16]
    else
      []
  }

  lemma SplitHigh16(a: int, lo: int)
    requires 0 <= lo < 16
    ensures (a * 16 + lo) / 16 == a && (a * 16 + lo) % 16 == lo
  {
  }

  lemma SplitHigh4(a: int, lo: int)
    requires 0 <= lo < 4
    ensures (a * 4 + lo) / 4 == a && (a * 4 + lo) % 4 == lo
  {
  }

  /** One group of three bytes survives the trip through four sextets. */
  lemma GroupRoundTrip(b0: Byte, b1: Byte, b2: Byte)
    ensures (b0 / 4) * 4 + ((b0 % 4) * 16 + b1 / 16) / 16 == b0
    ensures (((b0 % 4) * 16 + b1 / 16) % 16) * 16 + ((b1 % 16) * 4 + b2 / 64) / 4 == b1
    ensures (((b1 % 16) * 4 + b2 / 64) % 4) * 64 + b2 % 64 == b2
  {
    SplitHigh16(b0 % 4, b1 / 16);
    SplitHigh4(b1 % 16, b2 / 64);
  }

  lemma {:induction false} DecodeSextetsRoundTrip(bs: seq<Byte>)
    ensures DecodeSextets(Sextets(bs)) == bs
  {
    if |bs| >= 3 {
      GroupRoundTrip(bs[0], bs[1], bs[2]);
      DecodeSextetsRoundTrip(bs[3..]);
      assert Sextets(bs)[4..] == Sextets(bs[3..]);
      assert bs == bs[..3] + bs[3..];
    } else if |bs| == 2 {
      GroupRoundTrip(bs[0], bs[1], 0);
    } else if |bs| == 1 {
      GroupRoundTrip(bs[0], 0, 0);
    }
  }

  lemma ValuesOfChars(vs: seq<int>)
    requires AllSextets(vs)
    ensures Values(Chars(vs)) == vs
  {
    forall i | 0 <= i < |vs|
      ensures Values(Chars(vs))[i] == vs[i]
    {
      AlphabetInjective(vs[i]);
    }
  }

  // ---------------------------------------------------------------------
  // The browser's atob: forgiving-base64 decode (WHATWG Infra Standard)
  // ---------------------------------------------------------------------

  /** ASCII whitespace of the Infra Standard: TAB, LF, FF, CR and SPACE. */
  predicate IsAsciiWhitespace(c: int) {
    c == 9 || c == 10 || c == 12 || c == 13 || c == 32
  }

  function RemoveAsciiWhitespace(cs: seq<int>): (r: seq<int>)
    ensures forall i | 0 <= i < |r| :: !IsAsciiWhitespace(r[i])
    ensures |r| <= |cs|
  {
    if |cs| == 0 then []
    else if IsAsciiWhitespace(cs[0]) then RemoveAsciiWhitespace(cs[1..])
    else [cs[0]] + RemoveAsciiWhitespace(cs[1..])
  }

  /** Removes one or two trailing `=` (applied only to a length divisible by four). */
  function StripPadding(cs: seq<int>): (r: seq<int>)
    ensures r <= cs && |cs| - 2 <= |r|
  {
    if |cs| >= 2 && cs[|cs| - 1] == PadChar && cs[|cs| - 2] == PadChar then cs[..|cs| - 2]
    else if |cs| >= 1 && cs[|cs| - 1] == PadChar then cs[..|cs| - 1]
    else cs
  }

  /** The characters forgiving-base64 decode reads: the input without ASCII
      white space and, when that length is a multiple of four, without one
      or two final `=`. */
  function AtobData(data: seq<int>): (d: seq<int>)
    ensures |d| <= |data|
  {
    var d := RemoveAsciiWhitespace(data);
    if |d| % 4 == 0 then StripPadding(d) else d
  }

  /** Forgiving-base64 decode: fail when the characters read are one more
      than a multiple of four or include a non-alphabet character;
      otherwise reassemble the bytes, three per four characters. */
  function ForgivingDecode(data: seq<int>): (r: Option<seq<Byte>>)
    ensures r.Some? <==> AllAlphabet(AtobData(data)) && |AtobData(data)| % 4 != 1
    ensures r.Some? ==> |r.value| == 3 * |AtobData(data)| / 4
  {
    var d := AtobData(data);
    if |d| % 4 == 1 then None
    else if !AllAlphabet(d) then None
    else Some(DecodeSextets(Values(d)))
  }

  /** A character `atob` can never accept: outside the alphabet, not `=`
      and not ASCII whitespace. */
  predicate IsForeign(c: int) {
    !IsAlphabetChar(c) && c != PadChar && !IsAsciiWhitespace(c)
  }

  predicate HasForeign(cs: seq<int>) {
    exists i | 0 <= i < |cs| :: IsForeign(cs[i])
  }

  /** Whitespace removal keeps every other character. */
  lemma {:induction false} RemoveAsciiWhitespaceForeign(cs: seq<int>)
    requires HasForeign(cs)
    ensures HasForeign(RemoveAsciiWhitespace(cs))
  {
    var i :| 0 <= i < |cs| && IsForeign(cs[i]);
    var r := RemoveAsciiWhitespace(cs);
    if i == 0 {
      assert r[0] == cs[0];
    } else {
      assert cs[1..][i - 1] == cs[i];
      RemoveAsciiWhitespaceForeign(cs[1..]);
      var rest := RemoveAsciiWhitespace(cs[1..]);
      var j :| 0 <= j < |rest| && IsForeign(rest[j]);
      if IsAsciiWhitespace(cs[0]) {
        assert r[j] == rest[j];
      } else {
        assert r[j + 1] == rest[j];
      }
    }
  }

  /** `atob` rejects every input holding a foreign character. */
  lemma ForgivingDecodeRejects(data: seq<int>)
    requires HasForeign(data)
    ensures ForgivingDecode(data) == None
  {
    var d := RemoveAsciiWhitespace(data);
    RemoveAsciiWhitespaceForeign(data);
    var i :| 0 <= i < |d| && IsForeign(d[i]);
    var d' := if |d| % 4 == 0 then StripPadding(d) else d;
    assert i < |d'| && d'[i] == d[i];
    assert !AllAlphabet(d');
  }

  /** Facts about the shape of an encoding that both decoders rely on. */
  lemma EncodeShape(bs: seq<Byte>)
    ensures var body := Chars(Sextets(bs));
      && Encode(bs) == body + seq(PadCount(|bs|), _ => PadChar)
      && AllAlphabet(body)
      && |body| % 4 == TailChars(|bs| % 3)
  {
    SextetsLength(bs);
    var n := |bs|;
    var body := Chars(Sextets(bs));
    assert |body| == 4 * (n / 3) + TailChars(n % 3);
    MulAddMod4(n / 3, TailChars(n % 3));
  }

  lemma MulAddMod4(x: nat, t: nat)
    requires t < 4
    ensures (4 * x + t) % 4 == t
  {
  }

  /** Up to two `=` after alphabet characters are exactly what `StripPadding` removes. */
  lemma StripPaddingPads(body: seq<int>, k: nat)
    requires k <= 2 && AllAlphabet(body)
    ensures StripPadding(body + seq(k, _ => PadChar)) == body
  {
    var n := |body|;
    assert n > 0 ==> body[n - 1] != PadChar by {
      if n > 0 {
        assert IsAlphabetChar(body[n - 1]);
      }
    }
    if k == 2 {
      var e := body + [PadChar, PadChar];
      assert seq(k, _ => PadChar) == [PadChar, PadChar];
      assert e[|e| - 1] == PadChar && e[|e| - 2] == PadChar;
      assert e[..|e| - 2] == body;
    } else if k == 1 {
      var e := body + [PadChar];
      assert seq(k, _ => PadChar) == [PadChar];
      assert e[|e| - 1] == PadChar;
      assert n > 0 ==> e[|e| - 2] == body[n - 1];
      assert e[..|e| - 1] == body;
    } else {
      assert seq(k, _ => PadChar) == [];
      assert body + [] == body;
    }
  }

  /** Stripping the padding of an encoding leaves the alphabet characters. */
  lemma StripPaddingOfEncode(bs: seq<Byte>)
    ensures StripPadding(Encode(bs)) == Chars(Sextets(bs))
  {
    EncodeShape(bs);
    StripPaddingPads(Chars(Sextets(bs)), PadCount(|bs|));
  }

  /** The `atob` of a `btoa` image is the original byte string. */
  lemma ForgivingDecodeEncode(bs: seq<Byte>)
    ensures ForgivingDecode(Encode(bs)) == Some(bs)
  {
    var e := Encode(bs);
    var body := Chars(Sextets(bs));
    assert RemoveAsciiWhitespace(e) == e by {
      EncodeAscii(bs);
      NoWhitespaceUnchanged(e);
    }
    assert StripPadding(e) == body by {
      StripPaddingOfEncode(bs);
    }
    assert AllAlphabet(body) && |body| % 4 != 1 by {
      EncodeShape(bs);
    }
    assert DecodeSextets(Values(body)) == bs by {
      ValuesOfChars(Sextets(bs));
      DecodeSextetsRoundTrip(bs);
    }
  }

  /** Every character of an encoding is an alphabet character or `=`, so
      the encoding is printable ASCII. */
  lemma EncodeAscii(bs: seq<Byte>)
    ensures forall i | 0 <= i < |Encode(bs)| ::
      (IsAlphabetChar(Encode(bs)[i]) || Encode(bs)[i] == PadChar) && 1 <= Encode(bs)[i] < 128
  {
    EncodeShape(bs);
  }

  lemma NoWhitespaceUnchanged(cs: seq<int>)
    requires forall i | 0 <= i < |cs| :: IsAlphabetChar(cs[i]) || cs[i] == PadChar
    ensures RemoveAsciiWhitespace(cs) == cs
  {
    if |cs| > 0 {
      NoWhitespaceUnchanged(cs[1..]);
      assert cs == [cs[0]] + cs[1..];
    }
  }

  /** Distinct byte strings have distinct encodings. */
  lemma EncodeInjective(a: seq<Byte>, b: seq<Byte>)
    requires Encode(a) == Encode(b)
    ensures a == b
  {
    ForgivingDecodeEncode(a);
    ForgivingDecodeEncode(b);
  }

  // ---------------------------------------------------------------------
  // Python's base64.b64decode(s, validate=True)
  // ---------------------------------------------------------------------

  /** Number of trailing `=`, counting at most two. */
  function TrailingPads(s: seq<int>): (k: nat)
    ensures k <= 2 && k <= |s|
  {
    if |s| >= 2 && s[|s| - 1] == PadChar && s[|s| - 2] == PadChar then 2
    else if |s| >= 1 && s[|s| - 1] == PadChar then 1
    else 0
  }

  /** Index of the first `=`, or the length when there is none. */
  function FirstPad(s: seq<int>): (i: nat)
    ensures i <= |s| && (i < |s| ==> s[i] == PadChar)
    ensures forall j | 0 <= j < i :: s[j] != PadChar
  {
    if |s| == 0 || s[0] == PadChar then 0 else 1 + FirstPad(s[1..])
  }

  /** Index of the first character at or after `i` that is not `=`, or the length. */
  function NextNonPad(s: seq<int>, i: nat): (j: nat)
    requires i <= |s|
    ensures i <= j <= |s| && (j < |s| ==> s[j] != PadChar)
    decreases |s| - i
  {
    if i == |s| || s[i] != PadChar then i else NextNonPad(s, i + 1)
  }

  /** The inputs strict mode accepts: alphabet characters followed by
      exactly the `=` that complete the last group of four (none, two after
      a group of two, one after a group of three). */
  predicate IsStrictBase64(s: seq<int>) {
    var k := TrailingPads(s);
    AllAlphabet(s[..|s| - k]) && k == (4 - (|s| - k) % 4) % 4
  }

  const LeadingPadding: string := "binascii.Error: Leading padding not allowed"
  const OnlyBase64Data: string := "binascii.Error: Only base64 data is allowed"
  const ExcessPadding: string := "binascii.Error: Excess padding not allowed"
  const ExcessData: string := "binascii.Error: Excess data after padding"
  const DiscontinuousPadding: string := "binascii.Error: Discontinuous padding not allowed"
  const LoneDataCharacter: string :=
    "binascii.Error: Invalid base64-encoded string: number of data characters cannot be 1 more than a multiple of 4"
  const IncorrectPadding: string := "binascii.Error: Incorrect padding"

  /** The error strict mode reports for a character met after a `=`. */
  function AfterPadError(c: int): string {
    if IsAlphabetChar(c) then DiscontinuousPadding else OnlyBase64Data
  }

  /** With every character before the trailing pads in the alphabet, those
      pads start at the first `=`. */
  lemma FirstPadOfStrict(s: seq<int>)
    ensures AllAlphabet(s[..|s| - TrailingPads(s)]) ==> FirstPad(s) == |s| - TrailingPads(s)
  {
    var k := TrailingPads(s);
    var n := |s| - k;
    if AllAlphabet(s[..n]) {
      assert forall j | 0 <= j < n :: s[j] != PadChar by {
        forall j | 0 <= j < n
          ensures s[j] != PadChar
        {
          assert s[..n][j] == s[j];
        }
      }
    }
  }

  /** `validate=True` hands the input to `binascii.a2b_base64` in strict
      mode, which scans it once: a leading `=` is refused; a character
      outside the alphabet is refused; a `=` that opens a group, or any data
      or further `=` after the padding that closes the last group, is
      refused; a final group of one character, or of two or three characters
      not completed by `=`, is refused. */
  function PyB64Decode(s: seq<int>): (r: Result<seq<Byte>>)
    ensures r.Ok? <==> IsStrictBase64(s)
    ensures r.Ok? ==> r.value == DecodeSextets(Values(s[..|s| - TrailingPads(s)]))
  {
    var i := FirstPad(s);
    var body := s[..i];
    FirstPadOfStrict(s);
    if |s| > 0 && s[0] == PadChar then Raise(LeadingPadding)
    else if !AllAlphabet(body) then Raise(OnlyBase64Data)
    else if i == |s| then
      if i % 4 == 0 then Ok(DecodeSextets(Values(body)))
      else if i % 4 == 1 then Raise(LoneDataCharacter)
      else Raise(IncorrectPadding)
    else if i % 4 == 0 then Raise(ExcessPadding)
    else if i % 4 == 1 then
      var j := NextNonPad(s, i);
      if j == |s| then Raise(LoneDataCharacter) else Raise(AfterPadError(s[j]))
    else if i % 4 == 2 then
      if i + 1 == |s| then Raise(IncorrectPadding)
      else if s[i + 1] != PadChar then Raise(AfterPadError(s[i + 1]))
      else if i + 2 < |s| then Raise(ExcessData)
      else Ok(DecodeSextets(Values(body)))
    else if i + 1 < |s| then Raise(ExcessData)
    else Ok(DecodeSextets(Values(body)))
  }

  /** Python's decoder also inverts the encoder. */
  lemma PyB64DecodeEncode(bs: seq<Byte>)
    ensures PyB64Decode(Encode(bs)) == Ok(bs)
  {
    var e := Encode(bs);
    var body := Chars(Sextets(bs));
    EncodeShape(bs);
    assert e[..|e| - TrailingPads(e)] == body by {
      if |bs| % 3 == 1 {
        assert e == body + [PadChar, PadChar];
      } else if |bs| % 3 == 2 {
        assert e == body + [PadChar];
        assert |body| > 0 && IsAlphabetChar(body[|body| - 1]);
      } else {
        assert e == body;
        assert |body| > 0 ==> IsAlphabetChar(body[|body| - 1]);
      }
    }
    ValuesOfChars(Sextets(bs));
    DecodeSextetsRoundTrip(bs);
  }

  /** Strict mode refuses an encoding with one more `=` appended, such as
      `QUJD=` or `QUI==`. */
  lemma PyB64DecodeRejectsExtraPad(bs: seq<Byte>)
    ensures PyB64Decode(Encode(bs) + [PadChar]).Raise?
  {
    var body := Chars(Sextets(bs));
    var pads := seq(PadCount(|bs|), _ => PadChar);
    assert Encode(bs) == body + pads && AllAlphabet(body) && |body| % 4 == TailChars(|bs| % 3) by {
      EncodeShape(bs);
    }
    ExtraPadNotStrict(body, pads);
  }

  /** Alphabet characters followed by one `=` more than the last group needs. */
  lemma ExtraPadNotStrict(body: seq<int>, pads: seq<int>)
    requires AllAlphabet(body) && |pads| <= 2 && |pads| == (4 - |body| % 4) % 4
    requires forall j | 0 <= j < |pads| :: pads[j] == PadChar
    ensures !IsStrictBase64(body + pads + [PadChar])
  {
    var k := |pads|;
    var s := body + pads + [PadChar];
    assert |body| > 0 ==> IsAlphabetChar(body[|body| - 1]);
    if k == 2 {
      assert pads == [PadChar, PadChar];
      assert s == body + [PadChar, PadChar, PadChar];
      assert s[..|s| - TrailingPads(s)][|body|] == PadChar;
    } else if k == 1 {
      assert pads == [PadChar];
      assert s == body + [PadChar, PadChar];
      assert s[..|s| - TrailingPads(s)] == body;
    } else {
      assert pads == [];
      assert s == body + [PadChar];
      assert s[..|s| - TrailingPads(s)] == body;
    }
  }
}
