/** JavaScript strings as the façade sees them: sequences of UTF-16 code
    units, with the built-ins it calls (`trim`, `btoa`, `atob`, the
    URL-safe substitution and `split('|')[0]`). */
module JsText {
  import opened Wrappers
  import opened Bytes
  import opened Base64

  type CodeUnit = c: int | 0 <= c < 0x1_0000
  type JsString = seq<CodeUnit>

  /** An ASCII string literal as code units. */
  function Lit(s: string): (r: JsString)
    requires forall i | 0 <= i < |s| :: (s[i] as int) < 0x80
    ensures |r| == |s| && IsLatin1Text(r)
    ensures forall i | 0 <= i < |s| :: r[i] == s[i] as int
  {
    seq(|s|, i requires 0 <= i < |s| => s[i] as int)
  }

  const Bar: CodeUnit := 124     // '|'
  const Plus: CodeUnit := 43     // '+'
  const Slash: CodeUnit := 47    // '/'
  const Minus: CodeUnit := 45    // '-'
  const Underscore: CodeUnit := 95  // '_'

  // ---------------------------------------------------------------------
  // String.prototype.trim
  // ---------------------------------------------------------------------

  /** WhiteSpace and LineTerminator of the ECMAScript grammar: TAB, VT, FF,
      SP, NBSP, ZWNBSP, the other space separators, LF, CR, LS and PS. */
  predicate IsJsWhitespace(c: int) {
    c == 9 || c == 10 || c == 11 || c == 12 || c == 13 || c == 32 || c == 0xA0
    || c == 0x1680 || (0x2000 <= c <= 0x200A) || c == 0x2028 || c == 0x2029
    || c == 0x202F || c == 0x205F || c == 0x3000 || c == 0xFEFF
  }

  predicate IsBlank(s: JsString) {
    forall i | 0 <= i < |s| :: IsJsWhitespace(s[i])
  }

  /** How many white-space code units `s` starts with. */
  function LeadingBlanks(s: JsString): (n: nat)
    ensures n <= |s|
    ensures forall k | 0 <= k < n :: IsJsWhitespace(s[k])
    ensures n < |s| ==> !IsJsWhitespace(s[n])
  {
    if |s| > 0 && IsJsWhitespace(s[0]) then 1 + LeadingBlanks(s[1..]) else 0
  }

  /** How many white-space code units `s` ends with. */
  function TrailingBlanks(s: JsString): (n: nat)
    ensures n <= |s|
    ensures forall k | |s| - n <= k < |s| :: IsJsWhitespace(s[k])
    ensures n < |s| ==> !IsJsWhitespace(s[|s| - 1 - n])
  {
    if |s| > 0 && IsJsWhitespace(s[|s| - 1]) then 1 + TrailingBlanks(s[..|s| - 1]) else 0
  }

  /** `r` is the infix of `s` at `i`, with only white space before and after it. */
  predicate IsTrimmedInfix(s: JsString, r: JsString, i: nat) {
    && i + |r| <= |s| && r == s[i..i + |r|]
    && (forall k | 0 <= k < i :: IsJsWhitespace(s[k]))
    && (forall k | i + |r| <= k < |s| :: IsJsWhitespace(s[k]))
  }

  /** `s.trim()`: the infix left after removing white space at both ends.
      It is empty exactly for strings of white space only. */
  function Trim(s: JsString): (r: JsString)
    ensures exists i: nat :: IsTrimmedInfix(s, r, i)
    ensures |r| > 0 ==> !IsJsWhitespace(r[0]) && !IsJsWhitespace(r[|r| - 1])
    ensures |r| == 0 <==> IsBlank(s)
  {
    var i := LeadingBlanks(s);
    var n := TrailingBlanks(s);
    if i == |s| then
      assert IsTrimmedInfix(s, [], i);
      []
    else
      assert !IsJsWhitespace(s[i]);
      assert n < |s| - i;
      var r := s[i..|s| - n];
      assert IsTrimmedInfix(s, r, i);
      r
  }

  // ---------------------------------------------------------------------
  // btoa / atob
  // ---------------------------------------------------------------------

  predicate IsLatin1Text(s: JsString) {
    forall i | 0 <= i < |s| :: s[i] <= 0xFF
  }

  lemma Latin1Concat(a: JsString, b: JsString)
    requires IsLatin1Text(a) && IsLatin1Text(b)
    ensures IsLatin1Text(a + b)
  {
  }

  /** `btoa`: base64 of the string read as bytes; an InvalidCharacterError
      (here `None`) when a code unit exceeds 0xFF. */
  function Btoa(s: JsString): (r: Option<JsString>)
    ensures r.Some? <==> IsLatin1Text(s)
  {
    if IsLatin1Text(s) then Some(Encode(s)) else None
  }

  /** `atob`: forgiving-base64 decode, each byte becoming one code unit; an
      InvalidCharacterError (here `None`) on a malformed input. */
  function Atob(s: JsString): (r: Option<JsString>)
    ensures r.Some? ==> IsLatin1Text(r.value)
  {
    match ForgivingDecode(s)
    case None => None
    case Some(bs) => Some(bs)
  }

  /** `atob` inverts `btoa`. */
  lemma AtobBtoa(s: JsString)
    requires IsLatin1Text(s)
    ensures Atob(Btoa(s).value) == Some(s)
  {
    var bs: seq<Byte> := s;
    ForgivingDecodeEncode(bs);
  }

  /** A `btoa` image holds only alphabet characters and `=`. */
  lemma BtoaAlphabet(s: JsString)
    requires IsLatin1Text(s)
    ensures forall i | 0 <= i < |Btoa(s).value| ::
      IsAlphabetChar(Btoa(s).value[i]) || Btoa(s).value[i] == PadChar
  {
    var bs: seq<Byte> := s;
    EncodeAscii(bs);
  }

  /** The `btoa` image of a non-empty string is not blank: it starts with
      an alphabet character. */
  lemma BtoaNotBlank(s: JsString)
    requires IsLatin1Text(s) && |s| > 0
    ensures !IsBlank(Btoa(s).value)
  {
    var bs: seq<Byte> := s;
    var c := Encode(bs);
    assert |c| > 0 && IsAlphabetChar(c[0]) by {
      EncodeShape(bs);
    }
  }

  // ---------------------------------------------------------------------
  // URL-safe substitution
  // ---------------------------------------------------------------------

  /** `s.replace(/[+/]/g, c => c === '+' ? '-' : '_')`. */
  function ToUrlSafe(s: JsString): (r: JsString)
    ensures |r| == |s|
    ensures forall i | 0 <= i < |s| ::
      r[i] == (if s[i] == Plus then Minus else if s[i] == Slash then Underscore else s[i])
  {
    seq(|s|, i requires 0 <= i < |s| =>
      if s[i] == Plus then Minus else if s[i] == Slash then Underscore else s[i])
  }

  /** `key.replace(/[-_]/g, c => c === '-' ? '+' : '/')`, as in `validateKey`. */
  function FromUrlSafe(s: JsString): (r: JsString)
    ensures |r| == |s|
    ensures forall i | 0 <= i < |s| ::
      r[i] == (if s[i] == Minus then Plus else if s[i] == Underscore then Slash else s[i])
  {
    seq(|s|, i requires 0 <= i < |s| =>
      if s[i] == Minus then Plus else if s[i] == Underscore then Slash else s[i])
  }

  predicate HasNoUrlSafeChar(s: JsString) {
    forall i | 0 <= i < |s| :: s[i] != Minus && s[i] != Underscore
  }

  /** The reverse substitution undoes the forward one on any string without
      `-` or `_`, in particular on every standard base64 string. */
  lemma FromUrlSafeToUrlSafe(s: JsString)
    requires HasNoUrlSafeChar(s)
    ensures FromUrlSafe(ToUrlSafe(s)) == s
  {
  }

  /** The forward substitution leaves no `+` or `/` behind. */
  lemma ToUrlSafeAlphabet(s: JsString)
    ensures forall i | 0 <= i < |s| :: ToUrlSafe(s)[i] != Plus && ToUrlSafe(s)[i] != Slash
  {
  }

  // ---------------------------------------------------------------------
  // split('|')[0] and the suffix after the last '|'
  // ---------------------------------------------------------------------

  predicate HasNoBar(s: JsString) {
    forall i | 0 <= i < |s| :: s[i] != Bar
  }

  /** `s.split('|')[0]`: everything before the first `|`. */
  function FirstSegment(s: JsString): (r: JsString)
    ensures r <= s && HasNoBar(r)
    ensures |r| < |s| ==> s[|r|] == Bar
  {
    if |s| == 0 || s[0] == Bar then [] else [s[0]] + FirstSegment(s[1..])
  }

  /** Everything after the last `|` (all of `s` when it has none). */
  function AfterLastBar(s: JsString): (r: JsString)
    ensures |r| <= |s| && r == s[|s| - |r|..] && HasNoBar(r)
    ensures |r| < |s| ==> s[|s| - |r| - 1] == Bar
  {
    if |s| == 0 || s[|s| - 1] == Bar then []
    else
      var r := AfterLastBar(s[..|s| - 1]) + [s[|s| - 1]];
      assert s[..|s| - 1][|s| - |r|..] + [s[|s| - 1]] == s[|s| - |r|..];
      r
  }

  lemma AfterLastBarNoBar(s: JsString)
    requires HasNoBar(s)
    ensures AfterLastBar(s) == s
  {
  }

  /** A `|` ends the first segment: what follows it is not read. */
  lemma {:induction false} FirstSegmentStops(x: JsString, y: JsString)
    ensures FirstSegment(x + [Bar] + y) == FirstSegment(x)
  {
    if |x| > 0 && x[0] != Bar {
      FirstSegmentStops(x[1..], y);
      assert (x + [Bar] + y)[1..] == x[1..] + [Bar] + y;
    }
  }

  lemma ReverseNoBar(s: JsString)
    requires HasNoBar(s)
    ensures HasNoBar(Reverse(s))
  {
    forall i | 0 <= i < |s|
      ensures Reverse(s)[i] != Bar
    {
      assert Reverse(s)[i] == s[|s| - 1 - i];
    }
  }

  lemma ReverseSnoc<T>(p: seq<T>, c: T)
    ensures Reverse(p + [c]) == [c] + Reverse(p)
  {
  }

  /** Reading the reversed string up to its first `|` yields the reversed
      tail after the last `|`. */
  lemma {:induction false} FirstSegmentReverse(s: JsString)
    ensures FirstSegment(Reverse(s)) == Reverse(AfterLastBar(s))
  {
    if |s| > 0 {
      var p, c := s[..|s| - 1], s[|s| - 1];
      assert s == p + [c];
      ReverseSnoc(p, c);
      if c != Bar {
        FirstSegmentReverse(p);
        ReverseSnoc(AfterLastBar(p), c);
        assert ([c] + Reverse(p))[1..] == Reverse(p);
      }
    }
  }
}
