/// Stripping slots, escapes and doubled braces from a format literal, and whether a word remains.
module Slots {
  import opened Text

  /// What is left of an escape's body after its `}`, or nothing when it never closes.
  function AfterClose(rest: string): (after: string)
    ensures |after| <= |rest|
  {
    if rest == [] then []
    else if rest[0] == '}' then rest[1..]
    else AfterClose(rest[1..])
  }

  /// What is left after the backslash that preceded `rest` took its operand.
  function AfterEscape(rest: string): (after: string)
    ensures |after| <= |rest|
  {
    if rest == [] then []
    else if rest[0] == 'u' && |rest| > 1 && rest[1] == '{' then AfterClose(rest[1..])
    else rest[1..]
  }

  /// Whether the next turn meets a doubled brace.
  predicate Doubled(rest: string)
    requires rest != []
  {
    (rest[0] == '{' || rest[0] == '}') && |rest| > 1 && rest[1] == rest[0]
  }

  /// What one turn over a nonempty rest leaves to read.
  function Next(rest: string): (after: string)
    requires rest != []
    ensures |after| < |rest|
  {
    if rest[0] == '\\' then AfterEscape(rest[1..])
    else if Doubled(rest) then rest[2..]
    else rest[1..]
  }

  function DepthAfter(rest: string, depth: nat): nat
    requires rest != []
  {
    if Doubled(rest) then depth
    else if rest[0] == '{' then depth + 1
    else if rest[0] == '}' then (if depth > 0 then depth - 1 else 0)
    else depth
  }

  function Kept(rest: string, depth: nat): string
    requires rest != []
  {
    if depth == 0 && rest[0] != '\\' && rest[0] != '{' && rest[0] != '}' then [rest[0]] else []
  }

  /// The characters outside every slot, escape and doubled brace.
  function Strip(rest: string, depth: nat): string
    decreases |rest|
  {
    if rest == [] then []
    else Kept(rest, depth) + Strip(Next(rest), DepthAfter(rest, depth))
  }

  /// Some adjacent pair of ASCII letters.
  predicate HoldsAWord(left: string) {
    exists i | 0 <= i < |left| - 1 :: IsAsciiAlphabetic(left[i]) && IsAsciiAlphabetic(left[i + 1])
  }

  function Words(literal: string): Option<string> {
    var left := Strip(literal, 0);
    if HoldsAWord(left) then Some(Trim(left)) else None
  }

  /// `chars` is the iterator: what has not been read yet.
  method WordsTheViewWrote(literal: string) returns (words: Option<string>)
    ensures words == Words(literal)
    ensures words.None? <==>
      forall i | 0 <= i < |Strip(literal, 0)| - 1 ::
        !IsAsciiAlphabetic(Strip(literal, 0)[i]) || !IsAsciiAlphabetic(Strip(literal, 0)[i + 1])
  {
    var left := StripSlots(literal);
    var run := 0;
    for i := 0 to |left|
      invariant 0 <= run < 2
      invariant run > 0 <==> i > 0 && IsAsciiAlphabetic(left[i - 1])
      invariant forall j | 0 < j < i :: !IsAsciiAlphabetic(left[j - 1]) || !IsAsciiAlphabetic(left[j])
    {
      run := if IsAsciiAlphabetic(left[i]) then run + 1 else 0;
      if run >= 2 {
        assert IsAsciiAlphabetic(left[i - 1]) && IsAsciiAlphabetic(left[i - 1 + 1]);
        return Some(Trim(left));
      }
    }
    assert !HoldsAWord(left) by {
      forall i | 0 <= i < |left| - 1
        ensures !IsAsciiAlphabetic(left[i]) || !IsAsciiAlphabetic(left[i + 1])
      {
        var j := i + 1;
        assert !IsAsciiAlphabetic(left[j - 1]) || !IsAsciiAlphabetic(left[j]);
      }
    }
    return None;
  }

  method StripSlots(literal: string) returns (left: string)
    ensures left == Strip(literal, 0)
  {
    hide Next, DepthAfter, Kept;
    left := "";
    var chars, depth: nat := literal, 0;
    while chars != []
      invariant left + Strip(chars, depth) == Strip(literal, 0)
      decreases |chars|
    {
      var kept;
      chars, depth, kept := ReadTurn(chars, depth);
      left := left + kept;
    }
  }

  /// One turn of the loop: what it leaves to read, how deep it then is, and what it keeps.
  method ReadTurn(rest: string, depthWas: nat) returns (chars: string, depth: nat, kept: string)
    requires rest != []
    ensures chars == Next(rest) && depth == DepthAfter(rest, depthWas) && kept == Kept(rest, depthWas)
  {
    var here := rest[0];
    chars, depth, kept := rest[1..], depthWas, "";
    if here == '\\' {
      chars := SkipEscape(chars);
    } else if here == '{' && chars != [] && chars[0] == '{' {
      chars := chars[1..];
    } else if here == '}' && chars != [] && chars[0] == '}' {
      chars := chars[1..];
    } else if here == '{' {
      depth := depth + 1;
    } else if here == '}' {
      depth := if depth > 0 then depth - 1 else 0;
    } else if depth == 0 {
      kept := [here];
    }
  }

  method SkipEscape(rest: string) returns (chars: string)
    ensures chars == AfterEscape(rest)
  {
    chars := rest;
    if chars == [] { return; }
    var escaped := chars[0];
    chars := chars[1..];
    if escaped == 'u' && chars != [] && chars[0] == '{' {
      while chars != []
        invariant AfterClose(chars) == AfterClose(rest[1..])
        decreases |chars|
      {
        var inner := chars[0];
        chars := chars[1..];
        if inner == '}' { break; }
      }
    }
  }

  // ------------------------------------------------------------- slot blindness

  predicate Bland(text: string) {
    forall i | 0 <= i < |text| :: text[i] != '{' && text[i] != '}' && text[i] != '\\'
  }

  /// Whether reading `rest` comes to stand exactly at its index `n`.
  predicate LandsOn(rest: string, n: nat)
    decreases |rest|
  {
    n == 0 || (rest != [] && |rest| - |Next(rest)| <= n
               && LandsOn(Next(rest), n - (|rest| - |Next(rest)|)))
  }

  lemma StripOne(c: char, rest: string, depth: nat)
    requires Bland([c])
    ensures Strip([c] + rest, depth) == (if depth == 0 then [c] else []) + Strip(rest, depth)
  {
    var s := [c] + rest;
    assert c == [c][0];
    assert s[0] == c && s[1..] == rest;
  }

  lemma {:induction false} StripBland(text: string, rest: string, depth: nat)
    requires Bland(text)
    ensures Strip(text + rest, depth) == (if depth == 0 then text else []) + Strip(rest, depth)
  {
    hide Strip;
    if text == [] {
      assert text + rest == rest;
    } else {
      StripBland(text[1..], rest, depth);
      assert text + rest == [text[0]] + (text[1..] + rest);
      StripOne(text[0], text[1..] + rest, depth);
      assert [text[0]] + (text[1..] + Strip(rest, depth)) == text + Strip(rest, depth);
    }
  }

  function Slotted(inner: string, post: string): string {
    "{" + inner + "}" + post
  }

  /// Whether reading `rest` from this depth comes to stand exactly at its index `n`, at depth one, and
  /// at no shallower depth on the way.
  predicate ClosesAt(rest: string, n: nat, depth: nat)
    decreases |rest|
  {
    if n == 0 then depth == 1
    else
      && depth >= 1 && rest != [] && |rest| - |Next(rest)| <= n
      && ClosesAt(Next(rest), n - (|rest| - |Next(rest)|), DepthAfter(rest, depth))
  }

  /// Between its brace and this text, `inner` is read as the contents of one slot: it does not double
  /// the opening brace, and it is the slot's own brace that closes it.
  predicate FillsASlot(inner: string, post: string) {
    (inner == "" || inner[0] != '{') && ClosesAt(inner + ("}" + post), |inner|, 1)
  }

  lemma {:induction false} BlandClosesAt(inner: string, tail: string)
    requires Bland(inner) && tail != [] && tail[0] == '}'
    ensures ClosesAt(inner + tail, |inner|, 1)
  {
    if inner != [] {
      var s := inner + tail;
      assert s[0] == inner[0] && s[1..] == inner[1..] + tail;
      BlandClosesAt(inner[1..], tail);
    }
  }

  /// Text free of braces and backslashes fills a slot before any text.
  lemma BlandFillsASlot(inner: string, post: string)
    requires Bland(inner)
    ensures FillsASlot(inner, post)
  {
    BlandClosesAt(inner, "}" + post);
  }

  /// Inside a slot nothing is kept, whatever depth the slot itself is at.
  lemma {:induction false} StripToTheClose(rest: string, n: nat, depth: nat, base: nat)
    requires n <= |rest| && ClosesAt(rest, n, depth)
    ensures Strip(rest, base + depth) == Strip(rest[n..], base + 1)
    decreases |rest|
  {
    hide Next, Strip, DepthAfter;
    if n > 0 {
      var taken := |rest| - |Next(rest)|;
      NextIsASuffix(rest);
      StripToTheClose(Next(rest), n - taken, DepthAfter(rest, depth), base);
      SuffixOfSuffix(rest, taken, n);
      StripInside(rest, depth, base);
    } else {
      assert rest[0..] == rest;
    }
  }

  lemma SuffixOfSuffix(rest: string, taken: nat, n: nat)
    requires taken <= n <= |rest|
    ensures rest[taken..][n - taken..] == rest[n..]
  {
  }

  /// One turn inside a slot keeps nothing, and moves the depth alike from any base.
  lemma StripInside(rest: string, depth: nat, base: nat)
    requires rest != [] && depth >= 1
    ensures Strip(rest, base + depth) == Strip(Next(rest), base + DepthAfter(rest, depth))
  {
    hide Next, Doubled;
    assert Kept(rest, base + depth) == [];
  }

  lemma {:induction false} AfterCloseIsASuffix(rest: string)
    ensures |AfterClose(rest)| <= |rest| && AfterClose(rest) == rest[|rest| - |AfterClose(rest)|..]
  {
    if rest != [] && rest[0] != '}' { AfterCloseIsASuffix(rest[1..]); }
  }

  lemma NextIsASuffix(rest: string)
    requires rest != []
    ensures Next(rest) == rest[|rest| - |Next(rest)|..]
  {
    if rest[0] == '\\' && |rest| > 2 { AfterCloseIsASuffix(rest[2..]); }
  }

  lemma StripSlot(inner: string, post: string, depth: nat)
    requires FillsASlot(inner, post)
    ensures Strip(Slotted(inner, post), depth) == Strip("}" + post, depth + 1)
  {
    hide Strip, ClosesAt;
    var s, tail := Slotted(inner, post), "}" + post;
    assert s == "{" + (inner + tail);
    StripOpen(inner + tail, depth);
    StripToTheClose(inner + tail, |inner|, 1, depth);
    assert (inner + tail)[|inner|..] == tail;
  }

  lemma StripOpen(rest: string, depth: nat)
    requires rest != "" && rest[0] != '{'
    ensures Strip("{" + rest, depth) == Strip(rest, depth + 1)
  {
    var s := "{" + rest;
    assert s[0] == '{' && s[1] != '{' && s[1..] == rest;
  }

  /// What an escape takes does not depend on what follows the brace that closes it.
  lemma {:induction false} AfterCloseAppend(front: string, back: string, other: string)
    requires |AfterClose(front + back)| >= |back|
    requires |back| > 0 && |other| > 0 && back[0] == other[0] == '{'
    ensures |AfterClose(front + back)| == |back| + (|AfterClose(front + other)| - |other|)
    ensures |AfterClose(front + other)| >= |other|
    ensures exists n: nat | n <= |front| ::
      AfterClose(front + back) == front[n..] + back && AfterClose(front + other) == front[n..] + other
  {
    var s, t := front + back, front + other;
    if front == [] {
      assert s == back && t == other;
      AfterCloseShrinks(back);
    } else if front[0] == '}' {
      assert s[1..] == front[1..] + back && t[1..] == front[1..] + other;
    } else {
      assert s[1..] == front[1..] + back && t[1..] == front[1..] + other;
      AfterCloseAppend(front[1..], back, other);
      var n: nat :| n <= |front[1..]| && AfterClose(s[1..]) == front[1..][n..] + back
        && AfterClose(t[1..]) == front[1..][n..] + other;
      assert front[1..][n..] == front[n + 1..];
    }
  }

  lemma AfterCloseShrinks(rest: string)
    ensures rest != [] ==> |AfterClose(rest)| < |rest|
  {
  }

  /// An escape's operand that ends inside `front` is the same whatever follows.
  lemma EscapeIsLocal(front: string, back: string, other: string)
    requires |back| > 0 && |other| > 0 && back[0] == other[0] == '{'
    requires |AfterEscape(front + back)| >= |back|
    ensures
      exists n: nat | n <= |front| ::
        AfterEscape(front + back) == front[n..] + back && AfterEscape(front + other) == front[n..] + other
  {
    hide AfterClose;
    var s, t := front + back, front + other;
    if front != [] {
      assert s[0] == t[0] == front[0];
      assert s[1..] == front[1..] + back && t[1..] == front[1..] + other;
      if s[0] == 'u' && s[1] == '{' {
        assert t[1] == '{';
        AfterCloseAppend(front[1..], back, other);
        var n: nat :| n <= |front[1..]| && AfterClose(s[1..]) == front[1..][n..] + back
          && AfterClose(t[1..]) == front[1..][n..] + other;
        assert front[1..][n..] == front[n + 1..];
      }
    }
  }

  /// One turn that stays inside `front` does the same whatever follows the brace after it.
  lemma TurnIsLocal(front: string, back: string, other: string)
    requires front != []
    requires |back| > 0 && |other| > 0 && back[0] == other[0] == '{'
    requires |front + back| - |Next(front + back)| <= |front|
    ensures |front + other| - |Next(front + other)| == |front + back| - |Next(front + back)|
    ensures
      var n := |front + back| - |Next(front + back)|;
      Next(front + back) == front[n..] + back && Next(front + other) == front[n..] + other
    ensures forall depth ::
      && DepthAfter(front + back, depth) == DepthAfter(front + other, depth)
      && Kept(front + back, depth) == Kept(front + other, depth)
  {
    hide Next, Doubled, AfterEscape;
    var s, t := front + back, front + other;
    assert s[0] == t[0] == front[0] && s[1] == t[1];
    SameDoubling(s, t);
    NextIsLocal(front, back, other);
    var n: nat :| n <= |front| && Next(s) == front[n..] + back && Next(t) == front[n..] + other;
    assert |s| - |Next(s)| == n == |t| - |Next(t)|;
  }

  lemma SameDoubling(s: string, t: string)
    requires |s| > 1 && |t| > 1 && s[0] == t[0] && s[1] == t[1]
    ensures Doubled(s) <==> Doubled(t)
  {
  }

  lemma NextIsLocal(front: string, back: string, other: string)
    requires front != []
    requires |back| > 0 && |other| > 0 && back[0] == other[0] == '{'
    requires |front + back| - |Next(front + back)| <= |front|
    ensures
      exists n: nat | n <= |front| ::
        Next(front + back) == front[n..] + back && Next(front + other) == front[n..] + other
  {
    hide AfterEscape;
    var s, t := front + back, front + other;
    assert s[0] == t[0] == front[0] && s[1] == t[1];
    assert s[1..] == front[1..] + back && t[1..] == front[1..] + other;
    if s[0] == '\\' {
      EscapeIsLocal(front[1..], back, other);
      var n: nat :| n <= |front[1..]| && AfterEscape(s[1..]) == front[1..][n..] + back
        && AfterEscape(t[1..]) == front[1..][n..] + other;
      assert front[1..][n..] == front[n + 1..];
    } else if Doubled(s) {
      assert s[2..] == front[2..] + back && t[2..] == front[2..] + other;
    }
  }

  lemma {:induction false} StripBlind(pre: string, inner: string, other: string, post: string, depth: nat)
    requires FillsASlot(inner, post) && FillsASlot(other, post)
    requires LandsOn(pre + Slotted(inner, post), |pre|)
    ensures Strip(pre + Slotted(inner, post), depth) == Strip(pre + Slotted(other, post), depth)
    decreases |pre|
  {
    hide Strip, FillsASlot, Next, DepthAfter, Kept, Doubled;
    var back, swapped := Slotted(inner, post), Slotted(other, post);
    if pre == [] {
      assert pre + back == back && pre + swapped == swapped;
      StripSlot(inner, post, depth);
      StripSlot(other, post, depth);
    } else {
      TurnIsLocal(pre, back, swapped);
      var n := |pre + back| - |Next(pre + back)|;
      StripBlind(pre[n..], inner, other, post, DepthAfter(pre + back, depth));
      StripTurn(pre + back, depth);
      StripTurn(pre + swapped, depth);
    }
  }

  lemma StripTurn(rest: string, depth: nat)
    requires rest != []
    ensures Strip(rest, depth) == Kept(rest, depth) + Strip(Next(rest), DepthAfter(rest, depth))
  {
  }

  /// The words do not depend on what fills a slot: its old contents may hold nested slots, escapes and
  /// doubled braces, and so may the new ones. Reading has to land on the slot's own brace.
  lemma SlotBlindness(pre: string, inner: string, other: string, post: string)
    requires FillsASlot(inner, post) && FillsASlot(other, post)
    requires LandsOn(pre + Slotted(inner, post), |pre|)
    ensures Words(pre + Slotted(inner, post)) == Words(pre + Slotted(other, post))
  {
    StripBlind(pre, inner, other, post, 0);
  }

  /// A text before the slot that escapes nothing and does not end in an opening brace is enough.
  lemma {:induction false} PlainPrefixLands(pre: string, back: string)
    requires '\\' !in pre && (pre != [] ==> pre[|pre| - 1] != '{')
    requires back != [] && back[0] == '{'
    ensures LandsOn(pre + back, |pre|)
    decreases |pre|
  {
    var s := pre + back;
    if pre != [] {
      assert s[0] == pre[0] && s[1..] == pre[1..] + back;
      if Doubled(s) {
        assert |pre| >= 2;
        assert s[2..] == pre[2..] + back;
        PlainPrefixLands(pre[2..], back);
      } else {
        PlainPrefixLands(pre[1..], back);
      }
    }
  }

  // ------------------------------------------------- the grammar of a format string

  datatype Piece =
    | Plain(text: string)      // no brace and no backslash
    | Slot(inner: string)      // `{value}`
    | Codepoint(hex: string)   // `\u{2212}`
    | Escape(c: char)          // `\n`
    | OpenBrace                // `{{`
    | CloseBrace               // `}}`

  predicate WellFormed(piece: Piece) {
    match piece
    case Plain(text) => Bland(text)
    case Slot(inner) => Bland(inner)
    case Codepoint(hex) => '}' !in hex
    case Escape(c) => c != 'u'
    case _ => true
  }

  predicate AllWellFormed(pieces: seq<Piece>) {
    forall i | 0 <= i < |pieces| :: WellFormed(pieces[i])
  }

  function Spelled(piece: Piece): string {
    match piece
    case Plain(text) => text
    case Slot(inner) => "{" + inner + "}"
    case Codepoint(hex) => "\\u{" + hex + "}"
    case Escape(c) => ['\\', c]
    case OpenBrace => "{{"
    case CloseBrace => "}}"
  }

  function Rendered(pieces: seq<Piece>): string {
    if pieces == [] then [] else Spelled(pieces[0]) + Rendered(pieces[1..])
  }

  /// What the view itself wrote: the plain pieces, and nothing of the others.
  function Written(pieces: seq<Piece>): string {
    if pieces == [] then []
    else (if pieces[0].Plain? then pieces[0].text else []) + Written(pieces[1..])
  }

  lemma {:induction false} AfterCloseFinds(hex: string, rest: string)
    requires '}' !in hex
    ensures AfterClose(hex + "}" + rest) == rest
  {
    var s := hex + "}" + rest;
    if hex != [] {
      AfterCloseFinds(hex[1..], rest);
      assert s[1..] == hex[1..] + "}" + rest;
    } else {
      assert s[1..] == rest;
    }
  }

  lemma StripCodepoint(hex: string, rest: string, depth: nat)
    requires '}' !in hex
    ensures Strip(Spelled(Codepoint(hex)) + rest, depth) == Strip(rest, depth)
  {
    var s := Spelled(Codepoint(hex)) + rest;
    assert s[0] == '\\' && s[1] == 'u' && s[2] == '{';
    assert s[1..][1..] == ("{" + hex) + "}" + rest;
    AfterCloseFinds("{" + hex, rest);
  }

  lemma StripPair(piece: Piece, rest: string, depth: nat)
    requires piece.OpenBrace? || piece.CloseBrace? || (piece.Escape? && piece.c != 'u')
    ensures Strip(Spelled(piece) + rest, depth) == Strip(rest, depth)
  {
    var s := Spelled(piece) + rest;
    assert s[0] == Spelled(piece)[0] && s[1] == Spelled(piece)[1];
    assert s[2..] == rest && s[1..][1..] == rest;
  }

  lemma {:induction false} CloseMeetsBraces(pieces: seq<Piece>)
    requires AllWellFormed(pieces)
    ensures Strip("}" + Rendered(pieces), 1) == Strip(Rendered(pieces), 0)
  {
    var tail := Rendered(pieces);
    var s := "}" + tail;
    assert s[1..] == tail;
    if pieces != [] && pieces[0].CloseBrace? {
      var rest := Rendered(pieces[1..]);
      CloseMeetsBraces(pieces[1..]);
      assert s == "}}" + ("}" + rest);
      StripPair(CloseBrace, "}" + rest, 1);
      StripPair(CloseBrace, rest, 0);
    } else {
      if pieces != [] && Spelled(pieces[0]) == [] {
        CloseMeetsBraces(pieces[1..]);
        assert tail == Rendered(pieces[1..]);
      } else if pieces != [] {
        assert tail[0] == Spelled(pieces[0])[0] != '}';
      }
    }
  }

  lemma NothingStrips()
    ensures Rendered([]) == [] && Strip([], 0) == []
  {
  }

  lemma SpelledPlainly(piece: Piece)
    ensures piece.Plain? ==> Spelled(piece) == piece.text
    ensures piece.Slot? ==> Spelled(piece) == "{" + piece.inner + "}"
  {
  }

  /// The scanner agrees with the grammar: of any literal spelled from well-formed pieces it keeps
  /// exactly the plain ones, whatever braces, escapes and slots stand beside each other.
  lemma {:induction false} StripRendered(pieces: seq<Piece>)
    requires AllWellFormed(pieces)
    ensures Strip(Rendered(pieces), 0) == Written(pieces)
  {
    hide Strip, Spelled, Rendered, WellFormed;
    if pieces == [] {
      NothingStrips();
    } else {
      StripRendered(pieces[1..]);
      StripFirst(pieces);
    }
  }

  /// What a first piece adds to the stripping of the others.
  lemma StripFirst(pieces: seq<Piece>)
    requires pieces != [] && AllWellFormed(pieces)
    ensures Strip(Rendered(pieces), 0)
         == (if pieces[0].Plain? then pieces[0].text else []) + Strip(Rendered(pieces[1..]), 0)
  {
    hide Strip, Spelled, Bland, Slotted;
    var rest := Rendered(pieces[1..]);
    assert Rendered(pieces) == Spelled(pieces[0]) + rest;
    assert WellFormed(pieces[0]);
    SpelledPlainly(pieces[0]);
    match pieces[0]
    case Plain(text) => StripBland(text, rest, 0);
    case Slot(inner) =>
      SlotSpelled(inner, rest);
      BlandFillsASlot(inner, rest);
      StripSlot(inner, rest, 0);
      CloseMeetsBraces(pieces[1..]);
    case Codepoint(hex) => StripCodepoint(hex, rest, 0);
    case _ => StripPair(pieces[0], rest, 0);
  }

  lemma SlotSpelled(inner: string, rest: string)
    ensures "{" + inner + "}" + rest == Slotted(inner, rest)
  {
  }
}
