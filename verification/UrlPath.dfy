/**
 * URL normalisation and traversal detection of src/waf/path.rs. Decoding is the percent-decoding
 * of section 2.1 of RFC 3986, made lenient: what does not parse is passed through.
 */
module UrlPath {
  import opened Prelude

  function HexValue(c: char): Option<nat> {
    if '0' <= c <= '9' then Some(c as int - '0' as int)
    else if 'a' <= c <= 'f' then Some(c as int - 'a' as int + 10)
    else if 'A' <= c <= 'F' then Some(c as int - 'A' as int + 10)
    else None
  }

  /**
   * `u8::from_str_radix(hex, 16)` on at most two characters: one or two hexadecimal digits, or a
   * plus sign and one digit.
   */
  function ParseByte(hex: string): (r: Option<nat>)
    requires |hex| <= 2
    ensures r.Some? ==> r.value < 256 && hex != ""
  {
    if hex == "" then None
    else if |hex| == 1 then HexValue(hex[0])
    else if hex[0] == '+' then HexValue(hex[1])
    else
      match (HexValue(hex[0]), HexValue(hex[1]))
      case (Some(high), Some(low)) => Some(16 * high + low)
      case _ => None
  }

  /** The at most two characters after an escape sign at the front of s. */
  function Digits(s: string): (hex: string)
    requires s != ""
    ensures |hex| <= 2 && |hex| < |s|
  {
    if |s| > 3 then s[1..3] else s[1..]
  }

  function Decode(s: string): string {
    if s == "" then ""
    else if s[0] != '%' then [s[0]] + Decode(s[1..])
    else
      var hex := Digits(s);
      var rest := Decode(s[1 + |hex|..]);
      match ParseByte(hex)
      case Some(b) => [b as char] + rest
      case None => "%" + hex + rest
  }

  /** What an escape sign and the characters after it decode to. */
  function Unit(hex: string): string
    requires |hex| <= 2
  {
    match ParseByte(hex)
    case Some(b) => [b as char]
    case None => "%" + hex
  }

  lemma DecodeEscape(done: string, s: string)
    requires s != "" && s[0] == '%'
    ensures done + Decode(s) == done + Unit(Digits(s)) + Decode(s[1 + |Digits(s)|..])
  {
  }

  lemma DecodePlain(done: string, s: string)
    requires s != "" && s[0] != '%'
    ensures done + Decode(s) == done + [s[0]] + Decode(s[1..])
  {
  }

  /** Takes up to two characters from the iterator, which has just yielded an escape sign. */
  method TakeHex(input: string, at: nat) returns (hex: string, next: nat)
    requires 0 < at <= |input|
    ensures hex == Digits(input[at - 1..])
    ensures at <= next <= |input| && input[next..] == input[at - 1..][1 + |hex|..]
  {
    hex, next := "", at;
    if next < |input| {
      hex := hex + [input[next]];
      next := next + 1;
    }
    if next < |input| {
      hex := hex + [input[next]];
      next := next + 1;
    }
  }

  method NormalizeUrl(input: string) returns (result: string)
    ensures result == Decode(input)
  {
    result := "";
    var at := 0;
    while at < |input|
      invariant 0 <= at <= |input|
      invariant Decode(input) == result + Decode(input[at..])
    {
      ghost var done, left := result, input[at..];
      var c := input[at];
      at := at + 1;
      if c == '%' {
        var hex;
        hex, at := TakeHex(input, at);
        DecodeEscape(done, left);
        var byte := ParseByte(hex);
        if byte.Some? {
          result := result + [byte.value as char];
        } else {
          result := result + ['%'];
          result := result + hex;
          assert result == done + Unit(hex);
        }
      } else {
        assert input[at..] == left[1..];
        DecodePlain(done, left);
        result := result + [c];
      }
    }
  }

  // Encoding

  /** Whether a character is escaped, and the letter case of its two hexadecimal digits. */
  datatype Choice = Plain | Escaped(upperHigh: bool, upperLow: bool)

  function HexDigit(n: nat, upper: bool): char
    requires n < 16
  {
    if n < 10 then ('0' as int + n) as char
    else if upper then ('A' as int + n - 10) as char
    else ('a' as int + n - 10) as char
  }

  /** Only characters up to U+00FF can be escaped, and a percent sign must be. */
  ghost predicate Encodable(s: string, choices: seq<Choice>) {
    && |choices| == |s|
    && forall i :: 0 <= i < |s| ==> if choices[i].Plain? then s[i] != '%' else s[i] as int < 256
  }

  function Encode(s: string, choices: seq<Choice>): string
    requires Encodable(s, choices)
  {
    if s == "" then ""
    else
      var rest := Encode(s[1..], choices[1..]);
      match choices[0]
      case Plain => [s[0]] + rest
      case Escaped(h, l) => ['%', HexDigit(s[0] as int / 16, h), HexDigit(s[0] as int % 16, l)] + rest
  }

  lemma HexDigitParses(n: nat, upper: bool)
    requires n < 16
    ensures HexValue(HexDigit(n, upper)) == Some(n) && HexDigit(n, upper) != '+'
  {
  }

  /** Decoding undoes every encoding. */
  lemma {:induction false} DecodeUndoesEncode(s: string, choices: seq<Choice>)
    requires Encodable(s, choices)
    ensures Decode(Encode(s, choices)) == s
    decreases |s|
  {
    if s != "" {
      DecodeUndoesEncode(s[1..], choices[1..]);
      var rest, e := Encode(s[1..], choices[1..]), Encode(s, choices);
      match choices[0]
      case Plain =>
        assert e[1..] == rest;
      case Escaped(h, l) =>
        var high, low := s[0] as int / 16, s[0] as int % 16;
        HexDigitParses(high, h);
        HexDigitParses(low, l);
        assert Digits(e) == [HexDigit(high, h), HexDigit(low, l)];
        assert e[3..] == rest;
    }
  }

  // What becomes of each kind of escape

  predicate IsHex(c: char) {
    '0' <= c <= '9' || 'a' <= c <= 'f' || 'A' <= c <= 'F'
  }

  lemma HexDigitsAreSixteen(n: nat)
    requires n < 16
    ensures HexDigit(n, false) == "0123456789abcdef"[n] && HexDigit(n, true) == "0123456789ABCDEF"[n]
  {
  }

  /** The escapes that decode: two digits, a plus sign and a digit, or one digit at the very end. */
  lemma EscapesDecode(high: nat, low: nat, upperHigh: bool, upperLow: bool, rest: string)
    requires high < 16 && low < 16
    ensures var h, l := HexDigit(high, upperHigh), HexDigit(low, upperLow);
            && Decode(['%', h, l] + rest) == [(16 * high + low) as char] + Decode(rest)
            && Decode(['%', '+', l] + rest) == [low as char] + Decode(rest)
            && Decode(['%', l]) == [low as char]
  {
    var h, l := HexDigit(high, upperHigh), HexDigit(low, upperLow);
    HexDigitParses(high, upperHigh);
    HexDigitParses(low, upperLow);
    FrontEscape(h, l, rest);
    FrontEscape('+', l, rest);
    assert ['%', l][1..] == [l] && ['%', l][2..] == "";
    assert Decode("") == "";
  }

  /** Everything else stays as it is: other pairs of characters, and a sign with at most one non-digit behind it. */
  lemma OtherTextStays(a: char, b: char, rest: string)
    ensures !(IsHex(a) && IsHex(b)) && !(a == '+' && IsHex(b)) ==> Decode(['%', a, b] + rest) == ['%', a, b] + Decode(rest)
    ensures !IsHex(a) ==> Decode(['%', a]) == ['%', a]
    ensures a != '%' ==> Decode([a] + rest) == [a] + Decode(rest)
    ensures Decode("%") == "%" && Decode("") == ""
  {
    FrontEscape(a, b, rest);
    assert ['%', a][1..] == [a] && ['%', a][2..] == "";
    assert Digits("%") == "" && "%"[1..] == "";
    assert ([a] + rest)[1..] == rest;
  }

  lemma FrontEscape(a: char, b: char, rest: string)
    ensures var s := ['%', a, b] + rest;
            Digits(s) == [a, b] && s[3..] == rest && Decode(s) == Unit([a, b]) + Decode(rest)
  {
    var s := ['%', a, b] + rest;
    assert Digits(s) == [a, b] && s[3..] == rest;
  }

  // Traversal

  const PATTERNS: seq<string> :=
    ["../", "..\\", "/etc/passwd", "windows/system32", "boot.ini", "%2e%2e%2f", "%2e%2e%5c"]

  function AsciiLower(c: char): char {
    if 'A' <= c <= 'Z' then (c as int + 32) as char else c
  }

  predicate OccursAt(s: string, i: nat, p: string) {
    i + |p| <= |s| && forall k :: 0 <= k < |p| ==> AsciiLower(s[i + k]) == AsciiLower(p[k])
  }

  ghost predicate IsTraversal(s: string) {
    exists p, i: nat :: p in PATTERNS && i <= |s| && OccursAt(s, i, p)
  }

  /** What the header inspection decides about a raw path and query. */
  ghost predicate Blocked(raw: string) {
    IsTraversal(Decode(raw))
  }

  predicate Listed(p: string) {
    p == "../" || p == "..\\" || p == "/etc/passwd" || p == "windows/system32" || p == "boot.ini" ||
    p == "%2e%2e%2f" || p == "%2e%2e%5c"
  }

  /** v is p with some of its small letters made capital. */
  predicate InSomeCase(v: string, p: string) {
    |v| == |p| && forall k :: 0 <= k < |p| ==> v[k] == p[k] || ('a' <= p[k] <= 'z' && v[k] as int == p[k] as int - 32)
  }

  lemma NoCapitals(p: string)
    requires Listed(p)
    ensures forall k :: 0 <= k < |p| ==> !('A' <= p[k] <= 'Z')
  {
  }

  lemma SameLetterIff(c: char, d: char)
    requires !('A' <= d <= 'Z')
    ensures AsciiLower(c) == AsciiLower(d) <==> c == d || ('a' <= d <= 'z' && c as int == d as int - 32)
  {
  }

  lemma OccursAtIff(s: string, i: nat, p: string)
    requires i + |p| <= |s| && forall k :: 0 <= k < |p| ==> !('A' <= p[k] <= 'Z')
    ensures OccursAt(s, i, p) <==> InSomeCase(s[i..i + |p|], p)
  {
    var part := s[i..i + |p|];
    forall k | 0 <= k < |p| ensures part[k] == s[i + k] {
    }
    forall k | 0 <= k < |p|
      ensures AsciiLower(s[i + k]) == AsciiLower(p[k]) <==>
              part[k] == p[k] || ('a' <= p[k] <= 'z' && part[k] as int == p[k] as int - 32)
    {
      SameLetterIff(part[k], p[k]);
    }
  }

  lemma ListedIffPattern(p: string)
    ensures Listed(p) <==> p in PATTERNS
  {
    if Listed(p) {
      assert p == PATTERNS[0] || p == PATTERNS[1] || p == PATTERNS[2] || p == PATTERNS[3] || p == PATTERNS[4]
          || p == PATTERNS[5] || p == PATTERNS[6];
    }
  }

  /** Part of a text that is a listed pattern in some letter case. */
  ghost predicate ShowsAt(s: string, i: nat, p: string) {
    Listed(p) && i + |p| <= |s| && InSomeCase(s[i..i + |p|], p)
  }

  /** A text is a traversal if and only if some part of it is one of the seven patterns, in any letter case. */
  lemma TraversalIff(s: string)
    ensures IsTraversal(s) <==> exists i: nat, p :: ShowsAt(s, i, p)
  {
    if p, i: nat :| p in PATTERNS && i <= |s| && OccursAt(s, i, p) {
      ListedIffPattern(p);
      NoCapitals(p);
      OccursAtIff(s, i, p);
      assert ShowsAt(s, i, p);
    }
    if i: nat, p :| ShowsAt(s, i, p) {
      ListedIffPattern(p);
      NoCapitals(p);
      OccursAtIff(s, i, p);
    }
  }

  /** A pattern in any letter case is found in whatever text it stands. */
  lemma PatternIsFound(front: string, v: string, p: string, rest: string)
    requires Listed(p) && InSomeCase(v, p)
    ensures IsTraversal(front + v + rest)
  {
    var s := front + v + rest;
    assert s[|front|..|front| + |p|] == v;
    assert ShowsAt(s, |front|, p);
    TraversalIff(s);
  }

  /** However a URI is percent-encoded, its traversal verdict is that of the plain text. */
  lemma EncodingDoesNotHide(s: string, choices: seq<Choice>)
    requires Encodable(s, choices)
    ensures Blocked(Encode(s, choices)) <==> IsTraversal(s)
  {
    DecodeUndoesEncode(s, choices);
  }

  // Repeated decoding

  /** The text has, where the decoder looks for one, an escape that parses. */
  predicate HasEscape(s: string) {
    s != "" &&
    if s[0] != '%' then HasEscape(s[1..])
    else ParseByte(Digits(s)).Some? || HasEscape(s[1 + |Digits(s)|..])
  }

  /** Decoding leaves a text alone if and only if it has no escape, and shortens it otherwise. */
  lemma {:induction false} DecodeShrinksIff(s: string)
    ensures Decode(s) == s <==> !HasEscape(s)
    ensures HasEscape(s) ==> |Decode(s)| < |s|
    decreases |s|
  {
    if s != "" {
      if s[0] != '%' {
        DecodeShrinksIff(s[1..]);
        assert s == [s[0]] + s[1..];
        assert Decode(s)[1..] == Decode(s[1..]);
      } else {
        var hex := Digits(s);
        var rest := s[1 + |hex|..];
        DecodeShrinksIff(rest);
        assert s == "%" + hex + rest;
        if ParseByte(hex).None? {
          assert Decode(s)[1 + |hex|..] == Decode(rest);
        }
      }
    }
  }

  function DecodeTimes(s: string, n: nat): string {
    if n == 0 then s else Decode(DecodeTimes(s, n - 1))
  }

  lemma {:induction false} PassesShrink(s: string, n: nat)
    ensures |DecodeTimes(s, n)| + n <= |s| || Decode(DecodeTimes(s, n)) == DecodeTimes(s, n)
  {
    if n > 0 {
      PassesShrink(s, n - 1);
      DecodeShrinksIff(DecodeTimes(s, n - 1));
    }
  }

  /** As many passes as the text has characters reach a text that decoding leaves alone. */
  lemma DecodingSettles(s: string)
    ensures Decode(DecodeTimes(s, |s|)) == DecodeTimes(s, |s|)
  {
    PassesShrink(s, |s|);
  }
}
