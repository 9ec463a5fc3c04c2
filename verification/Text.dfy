/// Characters, trimming and decimal numerals, as Rust's standard library reads them.
/// A `string` is a sequence of Unicode scalar values, which is what `str::chars` yields.
module Text {

  datatype Option<+T> = None | Some(value: T)

  datatype Result<+T, +E> = Ok(value: T) | Err(error: E)

  const U64_MAX: nat := 0xFFFF_FFFF_FFFF_FFFF

  /// A machine word: `u64`, and `usize` on the platforms the program targets.
  type Word = n: nat | n <= U64_MAX

  function SaturatingAdd(a: Word, b: Word): Word {
    if a + b <= U64_MAX then a + b else U64_MAX
  }

  function SaturatingSub(a: Word, b: Word): Word {
    if b <= a then a - b else 0
  }

  function SaturatingMul(a: Word, b: Word): (product: Word)
    ensures 1 <= a && 1 <= b ==> 1 <= product
  {
    if a == 0 || b == 0 then 0
    else
      assert 1 <= a * b;
      if a * b <= U64_MAX then a * b else U64_MAX
  }

  /// `char::is_whitespace`.
  predicate IsWhitespace(c: char) {
    || '\U{0009}' <= c <= '\U{000D}'
    || c == ' '
    || c == '\U{0085}'
    || c == '\U{00A0}'
    || c == '\U{1680}'
    || '\U{2000}' <= c <= '\U{200A}'
    || c == '\U{2028}'
    || c == '\U{2029}'
    || c == '\U{202F}'
    || c == '\U{205F}'
    || c == '\U{3000}'
  }

  /// `char::is_control`.
  predicate IsControl(c: char) {
    c < ' ' || '\U{007F}' <= c <= '\U{009F}'
  }

  predicate IsDigit(c: char) {
    '0' <= c <= '9'
  }

  predicate IsAsciiAlphabetic(c: char) {
    'a' <= c <= 'z' || 'A' <= c <= 'Z'
  }

  function LowerChar(c: char): char {
    if 'A' <= c <= 'Z' then (c as int + 32) as char else c
  }

  /// `str::to_ascii_lowercase`.
  function Lower(s: string): (lowered: string)
    ensures |lowered| == |s|
    ensures forall i | 0 <= i < |s| :: lowered[i] == LowerChar(s[i])
  {
    seq(|s|, i requires 0 <= i < |s| => LowerChar(s[i]))
  }

  predicate StartsWith(s: string, prefix: string) {
    prefix <= s
  }

  predicate EndsWith(s: string, suffix: string) {
    |suffix| <= |s| && s[|s| - |suffix|..] == suffix
  }

  function StripPrefix(s: string, prefix: string): (rest: Option<string>)
    ensures rest.Some? <==> prefix <= s
    ensures rest.Some? ==> s == prefix + rest.value
  {
    if prefix <= s then Some(s[|prefix|..]) else None
  }

  function StripSuffix(s: string, suffix: string): (rest: Option<string>)
    ensures rest.Some? <==> EndsWith(s, suffix)
    ensures rest.Some? ==> s == rest.value + suffix
  {
    if EndsWith(s, suffix) then Some(s[..|s| - |suffix|]) else None
  }

  /// `str::contains` with a string needle.
  predicate Contains(s: string, needle: string) {
    exists i | 0 <= i <= |s| :: needle <= s[i..]
  }

  /// `str::split_once` with a character: the text before and after the first occurrence.
  function SplitOnce(s: string, c: char): (parts: Option<(string, string)>)
    ensures parts.None? <==> c !in s
    ensures parts.Some? ==> s == parts.value.0 + [c] + parts.value.1 && c !in parts.value.0
  {
    if s == [] then None
    else if s[0] == c then Some(([], s[1..]))
    else
      match SplitOnce(s[1..], c)
      case None => None
      case Some((before, after)) =>
        assert s == [s[0]] + s[1..];
        Some(([s[0]] + before, after))
  }

  /// Splitting recovers the halves a text was joined from.
  lemma {:induction false} SplitOnceJoined(before: string, c: char, after: string)
    requires c !in before
    ensures SplitOnce(before + [c] + after, c) == Some((before, after))
  {
    var s := before + [c] + after;
    if before != [] {
      SplitOnceJoined(before[1..], c, after);
      assert s[1..] == before[1..] + [c] + after;
      assert s[0] == before[0] != c;
      assert [before[0]] + before[1..] == before;
    } else {
      assert s[0] == c && s[1..] == after;
    }
  }

  /// `str::trim_start_matches` with a predicate.
  function TrimStartBy(s: string, drop: char -> bool): (rest: string)
    ensures |rest| <= |s| && rest == s[|s| - |rest|..]
    ensures rest != [] ==> !drop(rest[0])
    ensures forall i | 0 <= i < |s| - |rest| :: drop(s[i])
  {
    if s != [] && drop(s[0]) then
      assert forall i | 1 <= i < |s| :: s[i] == s[1..][i - 1];
      TrimStartBy(s[1..], drop)
    else s
  }

  /// `str::trim_end_matches` with a predicate.
  function TrimEndBy(s: string, drop: char -> bool): (rest: string)
    ensures |rest| <= |s| && rest == s[..|rest|]
    ensures rest != [] ==> !drop(rest[|rest| - 1])
    ensures forall i | |rest| <= i < |s| :: drop(s[i])
  {
    if s != [] && drop(s[|s| - 1]) then TrimEndBy(s[..|s| - 1], drop) else s
  }

  function TrimStart(s: string): string {
    TrimStartBy(s, IsWhitespace)
  }

  /// `str::trim`.
  function Trim(s: string): string {
    TrimEndBy(TrimStartBy(s, IsWhitespace), IsWhitespace)
  }

  /// `str::trim_matches` with a character.
  function TrimMatches(s: string, c: char): string {
    TrimEndBy(TrimStartBy(s, x => x == c), x => x == c)
  }

  lemma Regrouped<T>(a: seq<T>, b: seq<T>, c: seq<T>)
    ensures a + (b + c) == a + b + c
  {
  }

  /// A text that neither begins nor ends with whitespace is its own trim.
  lemma TrimIsIdentity(s: string)
    requires s != [] ==> !IsWhitespace(s[0]) && !IsWhitespace(s[|s| - 1])
    ensures Trim(s) == s
  {
  }

  /// A text that neither begins nor ends with the character is left whole.
  lemma TrimMatchesIsIdentity(s: string, c: char)
    requires s != [] && s[0] != c && s[|s| - 1] != c
    ensures TrimMatches(s, c) == s
  {
    hide TrimStartBy, TrimEndBy;
  }

  lemma TrimLeadingSpace(text: string)
    requires text != [] && !IsWhitespace(text[0]) && !IsWhitespace(text[|text| - 1])
    ensures Trim(" " + text) == text
  {
    assert IsWhitespace(' ');
    hide IsWhitespace, TrimStartBy, TrimEndBy;
    var s := " " + text;
    assert s[0] == ' ' && s[1] == text[0] && s[1..] == text;
    assert TrimStartBy(s, IsWhitespace) == text;
    assert TrimEndBy(text, IsWhitespace) == text;
  }

  // ------------------------------------------------------------------- order

  /// The order of `str`: the first differing character decides, and a prefix comes first.
  predicate TextBefore(a: string, b: string) {
    b != [] && (a == [] || a[0] < b[0] || (a[0] == b[0] && TextBefore(a[1..], b[1..])))
  }

  lemma {:induction false} TextTrichotomy(a: string, b: string)
    ensures TextBefore(a, b) ==> !TextBefore(b, a) && a != b
    ensures TextBefore(a, b) || a == b || TextBefore(b, a)
  {
    if a != [] && b != [] && a[0] == b[0] {
      TextTrichotomy(a[1..], b[1..]);
      assert a == [a[0]] + a[1..] && b == [b[0]] + b[1..];
    }
  }

  lemma {:induction false} TextTransitive(a: string, b: string, c: string)
    requires TextBefore(a, b) && TextBefore(b, c)
    ensures TextBefore(a, c)
  {
    if a != [] && a[0] == b[0] == c[0] {
      TextTransitive(a[1..], b[1..], c[1..]);
    }
  }

  // ---------------------------------------------------------------- decimals

  function DigitValue(c: char): nat
    requires IsDigit(c)
  {
    (c as int) - ('0' as int)
  }

  function DigitChar(d: nat): (c: char)
    requires d < 10
    ensures IsDigit(c) && DigitValue(c) == d
  {
    (d + '0' as int) as char
  }

  /// The decimal numeral of `n`, as `format!("{n}")` writes it.
  function Decimal(n: nat): (digits: string)
    ensures digits != []
    ensures forall c | c in digits :: IsDigit(c)
  {
    if n < 10 then [DigitChar(n)] else Decimal(n / 10) + [DigitChar(n % 10)]
  }

  predicate AllDigits(s: string) {
    forall c | c in s :: IsDigit(c)
  }

  function NumeralValue(s: string): nat
    requires AllDigits(s)
  {
    if s == [] then 0 else NumeralValue(s[..|s| - 1]) * 10 + DigitValue(s[|s| - 1])
  }

  /// `str::parse::<u64>`: an optional plus sign, at least one digit, and a value that fits.
  function ParseWord(s: string): (parsed: Option<Word>) {
    var digits := if StartsWith(s, "+") then s[1..] else s;
    if digits == [] || !AllDigits(digits) then None
    else if NumeralValue(digits) > U64_MAX then None
    else Some(NumeralValue(digits))
  }

  lemma {:induction false} DecimalValue(n: nat)
    ensures NumeralValue(Decimal(n)) == n
  {
    if 10 <= n {
      DecimalValue(n / 10);
      var shown := Decimal(n);
      assert shown[..|shown| - 1] == Decimal(n / 10);
    }
  }

  /// Parsing inverts printing on every machine word.
  lemma ParseDecimal(n: Word)
    ensures ParseWord(Decimal(n)) == Some(n)
  {
    DecimalValue(n);
    assert IsDigit(Decimal(n)[0]);
  }

  lemma DecimalInjective(a: nat, b: nat)
    requires Decimal(a) == Decimal(b)
    ensures a == b
  {
    DecimalValue(a);
    DecimalValue(b);
  }
}
