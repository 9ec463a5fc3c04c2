/// An escaper into single-quoted string literals, and a decoder of them by the string grammar of
/// section 12.9.4 of ECMA-262.
module Quote {
  import opened Text

  function Escaped(c: char): string {
    if c == '\\' then "\\\\"
    else if c == '\'' then "\\'"
    else if c == '\n' then "\\n"
    else if c == '\r' then "\\r"
    else if c == '\U{2028}' then "\\u2028"
    else if c == '\U{2029}' then "\\u2029"
    else [c]
  }

  function EscapedAll(raw: string): string {
    if raw == [] then [] else Escaped(raw[0]) + EscapedAll(raw[1..])
  }

  function Quoted(raw: string): string {
    "'" + EscapedAll(raw) + "'"
  }

  lemma {:induction false} EscapedAppend(front: string, c: char)
    ensures EscapedAll(front + [c]) == EscapedAll(front) + Escaped(c)
  {
    hide Escaped;
    if front == [] {
      assert EscapedAll([c]) == Escaped(c) + EscapedAll([]);
      assert front + [c] == [c];
    } else {
      EscapedAppend(front[1..], c);
      assert (front + [c])[1..] == front[1..] + [c];
    }
  }

  method QuoteText(raw: string) returns (out: string)
    ensures out == Quoted(raw)
  {
    hide Escaped;
    out := "'";
    for i := 0 to |raw|
      invariant out == "'" + EscapedAll(raw[..i])
    {
      EscapedAppend(raw[..i], raw[i]);
      assert raw[..i + 1] == raw[..i] + [raw[i]];
      out := PushEscaped(out, raw[i]);
    }
    assert raw[..|raw|] == raw;
    out := out + "'";
  }

  method PushEscaped(was: string, ch: char) returns (out: string)
    ensures out == was + Escaped(ch)
  {
    match ch
    case '\\' => out := was + "\\\\";
    case '\'' => out := was + "\\'";
    case '\n' => out := was + "\\n";
    case '\r' => out := was + "\\r";
    case '\U{2028}' => out := was + "\\u2028";
    case '\U{2029}' => out := was + "\\u2029";
    case other => out := was + [other];
  }

  // ------------------------------------------------------ the string grammar

  /// The decoded value, and the rest of the input.
  type Decoded = Option<(string, string)>

  predicate IsHexDigit(c: char) {
    IsDigit(c) || 'a' <= c <= 'f' || 'A' <= c <= 'F'
  }

  function HexValue(c: char): (value: nat)
    requires IsHexDigit(c)
    ensures value < 16
  {
    if IsDigit(c) then (c as int) - ('0' as int)
    else if 'a' <= c <= 'f' then (c as int) - ('a' as int) + 10
    else (c as int) - ('A' as int) + 10
  }

  function HexNumber(digits: string): nat
    requires forall c | c in digits :: IsHexDigit(c)
  {
    if digits == [] then 0
    else HexNumber(digits[..|digits| - 1]) * 16 + HexValue(digits[|digits| - 1])
  }

  /// The character with this code, when there is one: surrogates are halves of a character.
  function CharOf(code: nat): Option<char> {
    if code < 0xD800 || 0xE000 <= code < 0x11_0000 then Some(code as char) else None
  }

  function HexEscape(text: string, width: nat): Decoded {
    if |text| < width || exists c | c in text[..width] :: !IsHexDigit(c) then None
    else
      match CharOf(HexNumber(text[..width]))
      case None => None
      case Some(c) => Some(([c], text[width..]))
  }

  function BracedEscape(text: string): Decoded {
    match SplitOnce(text, '}')
    case None => None
    case Some((digits, rest)) =>
      if digits == [] || exists c | c in digits :: !IsHexDigit(c) then None
      else
        match CharOf(HexNumber(digits))
        case None => None
        case Some(c) => Some(([c], rest))
  }

  predicate IsLineTerminator(c: char) {
    c == '\n' || c == '\r' || c == '\U{2028}' || c == '\U{2029}'
  }

  function SingleEscape(c: char): Option<char> {
    if c == '\'' || c == '"' || c == '\\' then Some(c)
    else if c == 'b' then Some('\U{0008}')
    else if c == 'f' then Some('\U{000C}')
    else if c == 'n' then Some('\n')
    else if c == 'r' then Some('\r')
    else if c == 't' then Some('\t')
    else if c == 'v' then Some('\U{000B}')
    else None
  }

  /// What follows a backslash. Legacy octal escapes are refused, as strict code refuses them.
  function DecodeEscape(text: string): Decoded {
    if text == [] then None
    else
      var c, rest := text[0], text[1..];
      if SingleEscape(c).Some? then Some(([SingleEscape(c).value], rest))
      else if c == '\r' && StartsWith(rest, "\n") then Some(("", rest[1..]))
      else if IsLineTerminator(c) then Some(("", rest))
      else if c == 'x' then HexEscape(rest, 2)
      else if c == 'u' && StartsWith(rest, "{") then BracedEscape(rest[1..])
      else if c == 'u' then HexEscape(rest, 4)
      else if c == '0' && (rest == [] || !IsDigit(rest[0])) then Some((['\0'], rest))
      else if IsDigit(c) then None
      else Some(([c], rest))
  }

  lemma DecodeEscapeShrinks(text: string)
    ensures DecodeEscape(text).Some? ==> |DecodeEscape(text).value.1| < |text|
  {
    hide HexNumber, SplitOnce, CharOf;
  }

  /// The characters of a single-quoted literal after its opening quote, up to the closing one.
  function DecodeBody(text: string): Decoded
    decreases |text|
  {
    if text == [] then None
    else if text[0] == '\'' then Some(("", text[1..]))
    else if text[0] == '\n' || text[0] == '\r' then None
    else if text[0] == '\\' then
      DecodeEscapeShrinks(text[1..]);
      match DecodeEscape(text[1..])
      case None => None
      case Some((value, rest)) => Prepend(value, DecodeBody(rest))
    else Prepend([text[0]], DecodeBody(text[1..]))
  }

  function Prepend(front: string, decoded: Decoded): Decoded {
    match decoded
    case None => None
    case Some((value, rest)) => Some((front + value, rest))
  }

  function DecodeLiteral(text: string): Decoded {
    if StartsWith(text, "'") then DecodeBody(text[1..]) else None
  }

  // ---------------------------------------------------------------- round trip

  lemma UnicodeEscapeReads(code: string, rest: string, c: char)
    requires |code| == 4 && (forall d | d in code :: IsHexDigit(d))
    requires CharOf(HexNumber(code)) == Some(c)
    ensures DecodeEscape(['u'] + code + rest) == Some(([c], rest))
  {
    hide HexNumber, CharOf;
    var text := ['u'] + code + rest;
    assert text[0] == 'u' && text[1..] == code + rest;
    assert code[0] in code;
    assert (code + rest)[..4] == code && (code + rest)[4..] == rest;
    assert (code + rest)[0] == code[0];
  }

  lemma HexFour(a: char, b: char, c: char, d: char)
    requires IsHexDigit(a) && IsHexDigit(b) && IsHexDigit(c) && IsHexDigit(d)
    ensures HexNumber([a, b, c, d]) ==
      ((HexValue(a) * 16 + HexValue(b)) * 16 + HexValue(c)) * 16 + HexValue(d)
  {
    hide HexValue, IsHexDigit;
    assert [a, b, c, d][..3] == [a, b, c] && [a, b, c][..2] == [a, b] && [a, b][..1] == [a] && [a][..0] == [];
    assert HexNumber([a, b, c]) == HexNumber([a, b]) * 16 + HexValue(c);
    assert HexNumber([a, b]) == HexNumber([a]) * 16 + HexValue(b);
    assert HexNumber([a]) == HexNumber([]) * 16 + HexValue(a);
  }

  lemma SingleEscapeReads(escape: char, rest: string, c: char)
    requires SingleEscape(escape) == Some(c)
    ensures DecodeBody(['\\', escape] + rest) == Prepend([c], DecodeBody(rest))
  {
    var text := ['\\', escape] + rest;
    assert text[1..] == [escape] + rest && text[1..][1..] == rest;
  }

  lemma SeparatorReads(last: char, rest: string)
    requires last == '8' || last == '9'
    ensures DecodeBody("\\u202" + [last] + rest) ==
      Prepend([if last == '8' then '\U{2028}' else '\U{2029}'], DecodeBody(rest))
  {
    var code := ['2', '0', '2', last];
    HexFour('2', '0', '2', last);
    assert CharOf(HexNumber(code)) == Some(if last == '8' then '\U{2028}' else '\U{2029}');
    hide HexNumber, CharOf, DecodeEscape;
    UnicodeEscapeReads(code, rest, if last == '8' then '\U{2028}' else '\U{2029}');
    var text := "\\u202" + [last] + rest;
    assert text[0] == '\\' && text[1..] == ['u'] + code + rest;
  }

  lemma EscapedReads(c: char, rest: string)
    ensures DecodeBody(Escaped(c) + rest) == Prepend([c], DecodeBody(rest))
  {
    if c == '\U{2028}' {
      SeparatorReads('8', rest);
      assert Escaped(c) == "\\u202" + ['8'];
    } else if c == '\U{2029}' {
      SeparatorReads('9', rest);
      assert Escaped(c) == "\\u202" + ['9'];
    } else if c == '\\' {
      SingleEscapeReads('\\', rest, c);
    } else if c == '\'' {
      SingleEscapeReads('\'', rest, c);
    } else if c == '\n' {
      SingleEscapeReads('n', rest, c);
    } else if c == '\r' {
      SingleEscapeReads('r', rest, c);
    } else {
      assert ([c] + rest)[1..] == rest;
    }
  }

  lemma {:induction false} EscapedAllReads(raw: string, rest: string)
    ensures DecodeBody(EscapedAll(raw) + "'" + rest) == Some((raw, rest))
  {
    hide Escaped;
    if raw == [] {
      assert EscapedAll(raw) + "'" + rest == "'" + rest;
      assert ("'" + rest)[1..] == rest;
    } else {
      EscapedAllReads(raw[1..], rest);
      EscapedReads(raw[0], EscapedAll(raw[1..]) + "'" + rest);
      assert EscapedAll(raw) + "'" + rest == Escaped(raw[0]) + (EscapedAll(raw[1..]) + "'" + rest);
      assert [raw[0]] + raw[1..] == raw;
    }
  }

  /// Whatever a page writes, and whatever code follows, the literal decodes to exactly that text
  /// and closes exactly at its own delimiter.
  lemma QuoteRoundTrips(raw: string, rest: string)
    ensures DecodeLiteral(Quoted(raw) + rest) == Some((raw, rest))
  {
    EscapedAllReads(raw, rest);
    assert (Quoted(raw) + rest)[1..] == EscapedAll(raw) + "'" + rest;
  }

  /// Two texts never share a literal, and no literal is the beginning of another's code.
  lemma QuoteIsPrefixFree(a: string, b: string, afterA: string, afterB: string)
    requires Quoted(a) + afterA == Quoted(b) + afterB
    ensures a == b && afterA == afterB
  {
    QuoteRoundTrips(a, afterA);
    QuoteRoundTrips(b, afterB);
  }

  /// The literal stays on one line, by every definition of a line the grammar has.
  lemma {:induction false} QuoteStaysOnOneLine(raw: string)
    ensures forall c | c in Quoted(raw) :: !IsLineTerminator(c)
  {
    if raw != [] {
      QuoteStaysOnOneLine(raw[1..]);
      assert forall c | c in EscapedAll(raw[1..]) :: c in Quoted(raw[1..]);
      assert forall c | c in Escaped(raw[0]) :: !IsLineTerminator(c);
    }
  }
}
