/// A lexer of Rust source as a loop and as a recursion, where its lexemes start, and how the lines it
/// states compare with the true ones.
module Lexer {
  import opened Text

  datatype Kind =
    | Literal
    | Name
    | Brace    // `{`
    | Bracket  // `(` or `[`
    | Close    // `}`, `)` or `]`
    | Break    // `,` or `;`
    | Colon    // a single `:`
    | Other    // any other mark, `::` and `=>` too

  /// `body` is empty but for names and literals; a literal's excludes its quotes and hashes.
  datatype Lexeme = Lexeme(kind: Kind, body: string, line: nat)

  /// The Unicode classes `char::is_alphabetic` and `char::is_numeric`, whatever version they have.
  datatype Alphabet = Alphabet(alphabetic: char -> bool, numeric: char -> bool)

  predicate StartsName(abc: Alphabet, c: char) {
    abc.alphabetic(c) || c == '_'
  }

  predicate ContinuesName(abc: Alphabet, c: char) {
    abc.alphabetic(c) || abc.numeric(c) || c == '_'
  }

  function At(chars: string, i: nat): Option<char> {
    if i < |chars| then Some(chars[i]) else None
  }

  // ------------------------------------------------------ where readers stop

  function SkipTo(chars: string, at: nat, stop: char): (to: nat)
    ensures at <= to
    decreases |chars| - at
  {
    if at >= |chars| || chars[at] == stop then at else SkipTo(chars, at + 1, stop)
  }

  /// Where a block comment body beginning at `at` ends: after its `*/`, or at the end of the text.
  function BlockEnd(chars: string, at: nat): (to: nat)
    ensures at <= to
    decreases |chars| - at
  {
    if at >= |chars| then at
    else if chars[at] == '*' && At(chars, at + 1) == Some('/') then at + 2
    else BlockEnd(chars, at + 1)
  }

  /// Where a character literal whose body begins at `at` ends.
  function CharEnd(chars: string, at: nat): (to: nat)
    ensures at <= to
    decreases |chars| - at
  {
    if at >= |chars| then at
    else if chars[at] == '\\' then CharEnd(chars, at + 2)
    else if chars[at] == '\'' then at + 1
    else CharEnd(chars, at + 1)
  }

  function SkipChar(chars: string, from: nat): (to: nat)
    ensures from < to
  {
    if At(chars, from + 1) != Some('\\') && At(chars, from + 2) != Some('\'') then from + 1
    else CharEnd(chars, from + 1)
  }

  /// The closing quote of a string body beginning at `at`, or where the text ran out.
  function StringEnd(chars: string, at: nat): (end: nat)
    ensures at <= end
    decreases |chars| - at
  {
    if at >= |chars| then at
    else if chars[at] == '\\' then StringEnd(chars, at + 2)
    else if chars[at] == '"' then at
    else StringEnd(chars, at + 1)
  }

  /// The newlines a string body counts: the ones it meets outside escapes.
  function StringLines(chars: string, at: nat): nat
    decreases |chars| - at
  {
    if at >= |chars| then 0
    else if chars[at] == '\\' then StringLines(chars, at + 2)
    else if chars[at] == '"' then 0
    else (if chars[at] == '\n' then 1 else 0) + StringLines(chars, at + 1)
  }

  predicate HashesFollow(chars: string, at: nat, hashes: nat) {
    forall i | at < i <= at + hashes :: At(chars, i) == Some('#')
  }

  /// The closing quote of a raw string body beginning at `at`, or where the text ran out.
  function RawEnd(chars: string, at: nat, hashes: nat): (end: nat)
    ensures at <= end
    decreases |chars| - at
  {
    if at >= |chars| then at
    else if chars[at] == '"' && HashesFollow(chars, at, hashes) then at
    else RawEnd(chars, at + 1, hashes)
  }

  function HashRun(chars: string, at: nat): (hashes: nat)
    decreases |chars| - at
  {
    if At(chars, at) == Some('#') then 1 + HashRun(chars, at + 1) else 0
  }

  function NameEnd(abc: Alphabet, chars: string, at: nat): (to: nat)
    ensures at <= to
    ensures at <= |chars| ==> to <= |chars|
    ensures forall i | at <= i < to :: i < |chars| && ContinuesName(abc, chars[i])
    ensures to < |chars| ==> !ContinuesName(abc, chars[to])
    decreases |chars| - at
  {
    if at >= |chars| || !ContinuesName(abc, chars[at]) then at else NameEnd(abc, chars, at + 1)
  }

  /// How many newlines sit at the indices `from..to` of a text.
  function Newlines(chars: string, from: nat, till: nat): nat
    decreases till
  {
    if till <= from then 0
    else Newlines(chars, from, till - 1) + if At(chars, till - 1) == Some('\n') then 1 else 0
  }

  lemma {:induction false} NewlinesSplit(chars: string, a: nat, b: nat, c: nat)
    requires a <= b <= c
    ensures Newlines(chars, a, c) == Newlines(chars, a, b) + Newlines(chars, b, c)
    decreases c
  {
    if b < c { NewlinesSplit(chars, a, b, c - 1); }
  }

  lemma OneNewline(chars: string, at: nat)
    ensures Newlines(chars, at, at + 1) == if At(chars, at) == Some('\n') then 1 else 0
  {
  }

  // ------------------------------------------------------------ string forms

  datatype Reading = Reading(body: string, to: nat, crossed: nat)

  /// The index where the opening quote of a literal starting at `from` has to be, and how many
  /// hashes close it.
  function QuoteAt(chars: string, from: nat): (quote: (nat, nat))
    ensures from <= quote.0
  {
    match At(chars, from)
    case Some('b') => (from + 1, 0)
    case Some('r') => (from + 1 + HashRun(chars, from + 1), HashRun(chars, from + 1))
    case _ => (from, 0)
  }

  function Clip(chars: string, i: nat): (clipped: nat)
    ensures clipped <= |chars| && clipped <= i
  {
    if i <= |chars| then i else |chars|
  }

  function RawFrom(chars: string, quote: nat, hashes: nat): (reading: Reading)
    requires quote < |chars|
    ensures quote < reading.to
  {
    var end := RawEnd(chars, quote + 1, hashes);
    Reading(chars[quote + 1..Clip(chars, end)],
            if end < |chars| then end + hashes + 1 else end,
            Newlines(chars, quote + 1, end))
  }

  function OrdinaryFrom(chars: string, quote: nat): (reading: Reading)
    requires quote < |chars|
    ensures quote < reading.to
  {
    var end := StringEnd(chars, quote + 1);
    Reading(chars[quote + 1..Clip(chars, end)],
            if end < |chars| then end + 1 else end,
            StringLines(chars, quote + 1))
  }

  /// The literal whose prefix and opening quote stand at `from`, raw where hashes precede the quote.
  function StringAt(chars: string, from: nat): (reading: Option<Reading>)
    ensures reading.Some? ==> from < reading.value.to
  {
    var (quote, hashes) := QuoteAt(chars, from);
    if At(chars, quote) != Some('"') then None
    else if hashes > 0 then Some(RawFrom(chars, quote, hashes))
    else Some(OrdinaryFrom(chars, quote))
  }

  function Punctuation(here: char, next: Option<char>): (Kind, nat) {
    if here == ':' && next == Some(':') then (Other, 2)
    else if here == '=' && next == Some('>') then (Other, 2)
    else if here == ':' then (Colon, 1)
    else if here == '{' then (Brace, 1)
    else if here == '(' || here == '[' then (Bracket, 1)
    else if here == '}' || here == ')' || here == ']' then (Close, 1)
    else if here == ',' || here == ';' then (Break, 1)
    else (Other, 1)
  }

  // ---------------------------------------------------------------- chunks

  /// What one turn of the lexer's loop consumes: up to `to`, counting `crossed` lines, and perhaps
  /// leaving one token.
  datatype Chunk = Chunk(to: nat, crossed: nat, token: Option<(Kind, string)>)

  function ChunkAt(abc: Alphabet, chars: string, at: nat): (chunk: Chunk)
    requires at < |chars|
    ensures at < chunk.to
  {
    var here, next := chars[at], At(chars, at + 1);
    if here == '\n' then Chunk(at + 1, 1, None)
    else if IsWhitespace(here) then Chunk(at + 1, 0, None)
    else if here == '/' && next == Some('/') then Chunk(SkipTo(chars, at + 1, '\n'), 0, None)
    else if here == '/' && next == Some('*') then
      Chunk(BlockEnd(chars, at + 2), BlockLines(chars, at + 2), None)
    else if here == '\'' then Chunk(SkipChar(chars, at), 0, None)
    else
      match StringAt(chars, at)
      case Some(reading) => Chunk(reading.to, reading.crossed, Some((Literal, reading.body)))
      case None =>
        if StartsName(abc, here) then
          var to := NameEnd(abc, chars, at + 1);
          Chunk(to, 0, Some((Name, chars[at..to])))
        else
          var (kind, width) := Punctuation(here, next);
          Chunk(at + width, 0, Some((kind, "")))
  }

  function BlockLines(chars: string, at: nat): nat {
    Newlines(chars, at, Clip(chars, BlockEnd(chars, at)))
  }

  function LexFrom(abc: Alphabet, chars: string, at: nat, line: nat): seq<Lexeme>
    decreases |chars| - at
  {
    if at >= |chars| then []
    else
      var chunk := ChunkAt(abc, chars, at);
      Emitted(chunk, line) + LexFrom(abc, chars, chunk.to, line + chunk.crossed)
  }

  function Emitted(chunk: Chunk, line: nat): seq<Lexeme> {
    match chunk.token
    case None => []
    case Some((kind, body)) => [Lexeme(kind, body, line)]
  }

  function Lexed(abc: Alphabet, src: string): seq<Lexeme> {
    LexFrom(abc, src, 0, 1)
  }

  // ------------------------------------------------------- the loops themselves

  method LexSource(abc: Alphabet, src: string) returns (out: seq<Lexeme>)
    ensures out == Lexed(abc, src)
  {
    hide ChunkAt, LexFrom, Emitted;
    out := [];
    var at: nat, line: nat := 0, 1;
    while at < |src|
      invariant out + LexFrom(abc, src, at, line) == Lexed(abc, src)
      decreases |src| - at
    {
      var chunk := ReadChunk(abc, src, at);
      OneTurn(abc, src, at, line);
      ghost var was := out;
      if chunk.token.Some? {
        out := out + [Lexeme(chunk.token.value.0, chunk.token.value.1, line)];
      }
      assert out == was + Emitted(chunk, line) by { EmittedIs(chunk, line); }
      Regrouped(was, Emitted(chunk, line), LexFrom(abc, src, chunk.to, line + chunk.crossed));
      line := line + chunk.crossed;
      at := chunk.to;
    }
    LexEnds(abc, src, at, line);
  }

  lemma EmittedIs(chunk: Chunk, line: nat)
    ensures chunk.token.None? ==> Emitted(chunk, line) == []
    ensures chunk.token.Some? ==>
      Emitted(chunk, line) == [Lexeme(chunk.token.value.0, chunk.token.value.1, line)]
  {
  }

  lemma LexEnds(abc: Alphabet, chars: string, at: nat, line: nat)
    requires at >= |chars|
    ensures LexFrom(abc, chars, at, line) == []
  {
  }

  /// One turn of the loop: which reader the next character calls for, and what that reader took.
  method ReadChunk(abc: Alphabet, src: string, at: nat) returns (chunk: Chunk)
    requires at < |src|
    ensures chunk == ChunkAt(abc, src, at)
  {
    hide StringAt, IsWhitespace;
    var here, next := src[at], At(src, at + 1);
    if here == '\n' {
      chunk := Chunk(at + 1, 1, None);
    } else if IsWhitespace(here) {
      chunk := Chunk(at + 1, 0, None);
    } else if here == '/' && next == Some('/') {
      var to := ReadTo(src, at, '\n');
      chunk := Chunk(to, 0, None);
    } else if here == '/' && next == Some('*') {
      var to, crossed := ReadBlockComment(src, at);
      chunk := Chunk(to, crossed, None);
    } else if here == '\'' {
      var to := ReadCharLiteral(src, at);
      chunk := Chunk(to, 0, None);
    } else {
      var literal := ReadString(src, at);
      if literal.Some? {
        chunk := Chunk(literal.value.to, literal.value.crossed, Some((Literal, literal.value.body)));
      } else if StartsName(abc, here) {
        var body, to := ReadName(abc, src, at);
        chunk := Chunk(to, 0, Some((Name, body)));
      } else {
        var (kind, width) := Punctuation(here, next);
        chunk := Chunk(at + width, 0, Some((kind, "")));
      }
    }
  }

  method ReadTo(chars: string, from: nat, stop: char) returns (at: nat)
    ensures at == SkipTo(chars, from, stop)
  {
    at := from;
    while at < |chars|
      invariant SkipTo(chars, at, stop) == SkipTo(chars, from, stop)
      decreases |chars| - at
    {
      if chars[at] == stop { return; }
      at := at + 1;
    }
  }

  method ReadBlockComment(chars: string, from: nat) returns (at: nat, crossed: nat)
    requires from + 2 <= |chars|
    ensures at == BlockEnd(chars, from + 2)
    ensures crossed == BlockLines(chars, from + 2)
  {
    at, crossed := from + 2, 0;
    while at < |chars|
      invariant from + 2 <= at <= |chars|
      invariant BlockEnd(chars, at) == BlockEnd(chars, from + 2)
      invariant crossed == Newlines(chars, from + 2, at)
      decreases |chars| - at
    {
      var here := chars[at];
      if here == '\n' { crossed := crossed + 1; }
      if here == '*' && At(chars, at + 1) == Some('/') {
        assert Newlines(chars, from + 2, at + 2) == crossed;
        return at + 2, crossed;
      }
      at := at + 1;
    }
  }

  method ReadCharLiteral(chars: string, from: nat) returns (at: nat)
    ensures at == SkipChar(chars, from)
  {
    var escaped := At(chars, from + 1) == Some('\\');
    var closesAtTwo := At(chars, from + 2) == Some('\'');
    if !escaped && !closesAtTwo { return from + 1; }
    at := from + 1;
    while at < |chars|
      invariant CharEnd(chars, at) == CharEnd(chars, from + 1)
      decreases |chars| - at
    {
      if chars[at] == '\\' {
        at := at + 2;
      } else if chars[at] == '\'' {
        return at + 1;
      } else {
        at := at + 1;
      }
    }
  }

  method ReadString(chars: string, from: nat) returns (reading: Option<Reading>)
    ensures reading == StringAt(chars, from)
  {
    var at, hashes := from, 0;
    if At(chars, at) == Some('b') || At(chars, at) == Some('r') {
      var raw := At(chars, at) == Some('r');
      at := at + 1;
      if raw {
        while At(chars, at) == Some('#')
          invariant at == from + 1 + hashes
          invariant hashes + HashRun(chars, at) == HashRun(chars, from + 1)
          decreases |chars| - at
        {
          hashes := hashes + 1;
          at := at + 1;
        }
      }
      if At(chars, at) != Some('"') { return None; }
      if hashes > 0 {
        var raw := ReadRaw(chars, at, hashes);
        return Some(raw);
      }
    }
    if At(chars, at) != Some('"') { return None; }
    var ordinary := ReadOrdinary(chars, at);
    return Some(ordinary);
  }

  method ReadOrdinary(chars: string, quote: nat) returns (reading: Reading)
    requires quote < |chars|
    ensures reading == OrdinaryFrom(chars, quote)
  {
    hide StringEnd, StringLines;
    var at: nat, body, crossed: nat := quote + 1, "", 0;
    while at < |chars|
      invariant quote < at <= |chars| + 1
      invariant body == chars[quote + 1..Clip(chars, at)]
      invariant StringEnd(chars, at) == StringEnd(chars, quote + 1)
      invariant crossed + StringLines(chars, at) == StringLines(chars, quote + 1)
      decreases |chars| - at
    {
      var here := chars[at];
      BodyStep(chars, at);
      SliceGrows(chars, quote + 1, at);
      if here == '\\' {
        body := body + [here];
        if at + 1 < |chars| {
          SliceGrows(chars, quote + 1, at + 1);
          body := body + [chars[at + 1]];
        }
        at := at + 2;
      } else {
        if here == '"' { return Reading(body, at + 1, crossed); }
        if here == '\n' { crossed := crossed + 1; }
        body := body + [here];
        at := at + 1;
      }
    }
    BodyRunsOut(chars, at);
    return Reading(body, at, crossed);
  }

  lemma BodyStep(chars: string, at: nat)
    requires at < |chars|
    ensures chars[at] == '\\' ==>
      StringEnd(chars, at) == StringEnd(chars, at + 2) && StringLines(chars, at) == StringLines(chars, at + 2)
    ensures chars[at] == '"' ==> StringEnd(chars, at) == at && StringLines(chars, at) == 0
    ensures chars[at] != '\\' && chars[at] != '"' ==>
      && StringEnd(chars, at) == StringEnd(chars, at + 1)
      && StringLines(chars, at) == (if chars[at] == '\n' then 1 else 0) + StringLines(chars, at + 1)
  {
  }

  lemma BodyRunsOut(chars: string, at: nat)
    requires at >= |chars|
    ensures StringEnd(chars, at) == at && StringLines(chars, at) == 0
  {
  }

  lemma SliceGrows(chars: string, from: nat, at: nat)
    requires from <= at < |chars|
    ensures chars[from..at] + [chars[at]] == chars[from..at + 1]
  {
  }

  method ReadRaw(chars: string, quote: nat, hashes: nat) returns (reading: Reading)
    requires quote < |chars| && hashes > 0
    ensures reading == RawFrom(chars, quote, hashes)
  {
    var at, body, crossed := quote + 1, "", 0;
    while at < |chars|
      invariant quote + 1 <= at <= |chars|
      invariant body == chars[quote + 1..at]
      invariant RawEnd(chars, at, hashes) == RawEnd(chars, quote + 1, hashes)
      invariant crossed == Newlines(chars, quote + 1, at)
      decreases |chars| - at
    {
      var here := chars[at];
      if here == '"' && HashesFollow(chars, at, hashes) {
        return Reading(body, at + hashes + 1, crossed);
      }
      if here == '\n' { crossed := crossed + 1; }
      body := body + [here];
      at := at + 1;
    }
    return Reading(body, at, crossed);
  }

  method ReadName(abc: Alphabet, chars: string, from: nat) returns (body: string, at: nat)
    requires from < |chars| && StartsName(abc, chars[from])
    ensures at == NameEnd(abc, chars, from + 1)
    ensures body == chars[from..at]
  {
    at, body := from, "";
    while at < |chars|
      invariant from <= at <= |chars|
      invariant body == chars[from..at]
      invariant NameEnd(abc, chars, at) == NameEnd(abc, chars, from)
      decreases |chars| - at
    {
      var here := chars[at];
      if !ContinuesName(abc, here) { break; }
      body := body + [here];
      at := at + 1;
    }
  }

  // ------------------------------------------------------ where lines are lost

  /// Whether the character literal, or the escapes of the string, starting at this chunk step over
  /// a newline without counting it.
  predicate Swallows(abc: Alphabet, chars: string, at: nat)
    requires at < |chars|
  {
    if chars[at] == '\'' then Newlines(chars, at, SkipChar(chars, at)) > 0
    else
      var (quote, hashes) := QuoteAt(chars, at);
      && ChunkAt(abc, chars, at).token.Some? && ChunkAt(abc, chars, at).token.value.0 == Literal
      && hashes == 0
      && EscapesNewline(chars, quote + 1)
  }

  /// Whether the string body beginning at `at` holds a backslash directly before a newline.
  predicate EscapesNewline(chars: string, at: nat)
    decreases |chars| - at
  {
    if at >= |chars| || chars[at] == '"' then false
    else if chars[at] == '\\' then
      At(chars, at + 1) == Some('\n') || EscapesNewline(chars, at + 2)
    else EscapesNewline(chars, at + 1)
  }

  lemma {:induction false} StringLinesLoseEscapes(chars: string, at: nat)
    ensures StringLines(chars, at) <= Newlines(chars, at, StringEnd(chars, at))
    ensures StringLines(chars, at) == Newlines(chars, at, StringEnd(chars, at)) <==> !EscapesNewline(chars, at)
    decreases |chars| - at
  {
    var end := StringEnd(chars, at);
    if at < |chars| && chars[at] == '\\' {
      StringLinesLoseEscapes(chars, at + 2);
      NewlinesSplit(chars, at, at + 2, end);
      NewlinesSplit(chars, at, at + 1, at + 2);
      OneNewline(chars, at);
      OneNewline(chars, at + 1);
    } else if at < |chars| && chars[at] != '"' {
      StringLinesLoseEscapes(chars, at + 1);
      NewlinesSplit(chars, at, at + 1, end);
    }
  }

  lemma {:induction false} NoNewlines(chars: string, from: nat, till: nat)
    requires forall i | from <= i < till :: At(chars, i) != Some('\n')
    ensures Newlines(chars, from, till) == 0
    decreases till
  {
    if from < till { NoNewlines(chars, from, till - 1); }
  }

  lemma {:induction false} NewlinesClip(chars: string, from: nat, till: nat)
    ensures Newlines(chars, from, till) == Newlines(chars, from, Clip(chars, till))
    decreases till
  {
    if till > |chars| {
      if from < till { NewlinesClip(chars, from, till - 1); }
      if from >= |chars| { NoNewlines(chars, from, till); }
    }
  }

  lemma {:induction false} SkipToPassesNoStop(chars: string, at: nat, stop: char)
    ensures forall i | at <= i < SkipTo(chars, at, stop) :: At(chars, i) != Some(stop)
    decreases |chars| - at
  {
    if at < |chars| && chars[at] != stop { SkipToPassesNoStop(chars, at + 1, stop); }
  }

  lemma {:induction false} HashesAreHashes(chars: string, at: nat)
    ensures forall i | at <= i < at + HashRun(chars, at) :: At(chars, i) == Some('#')
    decreases |chars| - at
  {
    if At(chars, at) == Some('#') { HashesAreHashes(chars, at + 1); }
  }

  lemma QuotePrefixHasNoNewline(chars: string, from: nat)
    requires from < |chars| && chars[from] != '\n' && StringAt(chars, from).Some?
    ensures Newlines(chars, from, QuoteAt(chars, from).0 + 1) == 0
  {
    hide OrdinaryFrom, RawFrom;
    HashesAreHashes(chars, from + 1);
    NoNewlines(chars, from, QuoteAt(chars, from).0 + 1);
  }

  lemma {:induction false} RawEndCloses(chars: string, at: nat, hashes: nat)
    ensures RawEnd(chars, at, hashes) < |chars| ==>
      chars[RawEnd(chars, at, hashes)] == '"' && HashesFollow(chars, RawEnd(chars, at, hashes), hashes)
    decreases |chars| - at
  {
    if at < |chars| { RawEndCloses(chars, at + 1, hashes); }
  }

  lemma {:induction false} StringEndCloses(chars: string, at: nat)
    ensures StringEnd(chars, at) < |chars| ==> chars[StringEnd(chars, at)] == '"'
    decreases |chars| - at
  {
    if at < |chars| {
      StringEndCloses(chars, at + 1);
      StringEndCloses(chars, at + 2);
    }
  }

  lemma RawCountsEveryLine(chars: string, quote: nat, hashes: nat)
    requires quote < |chars|
    ensures
      var reading := RawFrom(chars, quote, hashes);
      Newlines(chars, quote + 1, reading.to) == reading.crossed
  {
    var end, to := RawEnd(chars, quote + 1, hashes), RawFrom(chars, quote, hashes).to;
    RawEndCloses(chars, quote + 1, hashes);
    NewlinesSplit(chars, quote + 1, end, to);
    NoNewlines(chars, end, to);
  }

  lemma OrdinaryLosesEscapes(chars: string, quote: nat)
    requires quote < |chars|
    ensures
      var reading := OrdinaryFrom(chars, quote);
      && reading.crossed <= Newlines(chars, quote + 1, reading.to)
      && (reading.crossed == Newlines(chars, quote + 1, reading.to) <==> !EscapesNewline(chars, quote + 1))
  {
    var end, to := StringEnd(chars, quote + 1), OrdinaryFrom(chars, quote).to;
    StringLinesLoseEscapes(chars, quote + 1);
    StringEndCloses(chars, quote + 1);
    NewlinesSplit(chars, quote + 1, end, to);
    NoNewlines(chars, end, to);
  }

  lemma StringCountsLines(chars: string, at: nat)
    requires at < |chars| && chars[at] != '\n' && StringAt(chars, at).Some?
    ensures
      var reading, passed := StringAt(chars, at).value, Newlines(chars, at, StringAt(chars, at).value.to);
      && reading.crossed <= passed
      && (reading.crossed == passed <==>
          !(QuoteAt(chars, at).1 == 0 && EscapesNewline(chars, QuoteAt(chars, at).0 + 1)))
  {
    hide OrdinaryFrom, RawFrom, EscapesNewline, Newlines;
    var (quote, hashes) := QuoteAt(chars, at);
    QuotePrefixHasNoNewline(chars, at);
    NewlinesSplit(chars, at, quote + 1, StringAt(chars, at).value.to);
    RawCountsEveryLine(chars, quote, hashes);
    OrdinaryLosesEscapes(chars, quote);
  }

  lemma CommentCountsLines(chars: string, at: nat)
    requires at + 1 < |chars| && chars[at] == '/' && chars[at + 1] == '*'
    ensures Newlines(chars, at, BlockEnd(chars, at + 2)) == BlockLines(chars, at + 2)
  {
    NewlinesSplit(chars, at, at + 2, BlockEnd(chars, at + 2));
    NoNewlines(chars, at, at + 2);
    NewlinesClip(chars, at + 2, BlockEnd(chars, at + 2));
  }

  lemma NameHasNoNewline(abc: Alphabet, chars: string, at: nat)
    requires at < |chars| && chars[at] != '\n' && !ContinuesName(abc, '\n')
    ensures Newlines(chars, at, NameEnd(abc, chars, at + 1)) == 0
  {
    NoNewlines(chars, at, NameEnd(abc, chars, at + 1));
  }

  lemma PunctuationHasNoNewline(chars: string, at: nat)
    requires at < |chars| && chars[at] != '\n'
    ensures Newlines(chars, at, at + Punctuation(chars[at], At(chars, at + 1)).1) == 0
  {
    NoNewlines(chars, at, at + Punctuation(chars[at], At(chars, at + 1)).1);
  }

  /// The lines a turn counts are at most the newlines it passes, and as many exactly when it swallows
  /// none.
  lemma ChunkCountsLines(abc: Alphabet, chars: string, at: nat)
    requires at < |chars| && !ContinuesName(abc, '\n')
    ensures
      var chunk := ChunkAt(abc, chars, at);
      && chunk.crossed <= Newlines(chars, at, chunk.to)
      && (chunk.crossed == Newlines(chars, at, chunk.to) <==> !Swallows(abc, chars, at))
  {
    hide StringAt, Newlines, EscapesNewline, BlockLines, QuoteAt;
    var here, next := chars[at], At(chars, at + 1);
    OneNewline(chars, at);
    if here == '\n' {
    } else if IsWhitespace(here) {
    } else if here == '/' && next == Some('/') {
      SkipToPassesNoStop(chars, at + 1, '\n');
      NoNewlines(chars, at, SkipTo(chars, at + 1, '\n'));
    } else if here == '/' && next == Some('*') {
      CommentCountsLines(chars, at);
    } else if here == '\'' {
    } else if StringAt(chars, at).Some? {
      StringCountsLines(chars, at);
    } else if StartsName(abc, here) {
      NameHasNoNewline(abc, chars, at);
    } else {
      PunctuationHasNoNewline(chars, at);
    }
  }

  // ------------------------------------------------------------ whole texts

  /// Where each lexeme of a text starts.
  function Starts(abc: Alphabet, chars: string, at: nat): seq<nat>
    decreases |chars| - at
  {
    if at >= |chars| then []
    else
      var chunk := ChunkAt(abc, chars, at);
      (if chunk.token.Some? then [at] else []) + Starts(abc, chars, chunk.to)
  }

  lemma OneTurn(abc: Alphabet, chars: string, at: nat, line: nat)
    requires at < |chars|
    ensures
      var chunk := ChunkAt(abc, chars, at);
      && LexFrom(abc, chars, at, line)
         == Emitted(chunk, line) + LexFrom(abc, chars, chunk.to, line + chunk.crossed)
      && Starts(abc, chars, at)
         == (if chunk.token.Some? then [at] else []) + Starts(abc, chars, chunk.to)
  {
    hide ChunkAt;
  }

  /// Whether a turn of the loop that began at `at` comes to begin one at `p`.
  predicate Visits(abc: Alphabet, chars: string, at: nat, p: nat): (visits: bool)
    ensures visits ==> at <= p < |chars|
    decreases |chars| - at
  {
    at < |chars| && (p == at || Visits(abc, chars, ChunkAt(abc, chars, at).to, p))
  }

  /// A newline went missing at some turn before the text's index `stop`.
  ghost predicate LostBefore(abc: Alphabet, chars: string, at: nat, stop: nat) {
    exists p | at <= p < stop :: Visits(abc, chars, at, p) && p < |chars| && Swallows(abc, chars, p)
  }

  lemma LostStep(abc: Alphabet, chars: string, at: nat, stop: nat)
    requires at < |chars| && at < stop
    ensures LostBefore(abc, chars, at, stop) <==>
      Swallows(abc, chars, at) || LostBefore(abc, chars, ChunkAt(abc, chars, at).to, stop)
  {
    hide ChunkAt, Swallows;
    var to := ChunkAt(abc, chars, at).to;
    if LostBefore(abc, chars, at, stop) {
      var p :| at <= p < stop && Visits(abc, chars, at, p) && p < |chars| && Swallows(abc, chars, p);
    }
    if Swallows(abc, chars, at) { assert Visits(abc, chars, at, at); }
    if LostBefore(abc, chars, to, stop) {
      var p :| to <= p < stop && Visits(abc, chars, to, p) && p < |chars| && Swallows(abc, chars, p);
      assert Visits(abc, chars, at, p);
    }
  }

  /// The k-th lexeme starts at a turn of the loop, further on than every lexeme before it, and its
  /// line is at most one more than the newlines before it - exactly that unless an earlier string
  /// escapes a newline or an earlier character literal spans one.
  lemma {:induction false} LinesFrom(abc: Alphabet, chars: string, at: nat, line: nat, k: nat)
    requires !ContinuesName(abc, '\n')
    requires k < |LexFrom(abc, chars, at, line)|
    ensures |Starts(abc, chars, at)| == |LexFrom(abc, chars, at, line)|
    ensures
      var start, stated := Starts(abc, chars, at)[k], LexFrom(abc, chars, at, line)[k].line;
      && at <= start < |chars| && Visits(abc, chars, at, start)
      && stated <= line + Newlines(chars, at, start)
      && (stated == line + Newlines(chars, at, start) <==> !LostBefore(abc, chars, at, start))
    decreases |chars| - at
  {
    hide ChunkAt, Newlines, Swallows, LostBefore;
    var chunk := ChunkAt(abc, chars, at);
    StartsCount(abc, chars, at, line);
    if chunk.token.Some? && k == 0 {
      NothingLostYet(abc, chars, at);
    } else {
      var j := if chunk.token.Some? then k - 1 else k;
      LinesFrom(abc, chars, chunk.to, line + chunk.crossed, j);
      var start := Starts(abc, chars, at)[k];
      NewlinesSplit(chars, at, chunk.to, start);
      ChunkCountsLines(abc, chars, at);
      LostStep(abc, chars, at, start);
    }
  }

  lemma NothingLostYet(abc: Alphabet, chars: string, at: nat)
    ensures Newlines(chars, at, at) == 0 && !LostBefore(abc, chars, at, at)
  {
  }

  lemma {:induction false} StartsCount(abc: Alphabet, chars: string, at: nat, line: nat)
    ensures |Starts(abc, chars, at)| == |LexFrom(abc, chars, at, line)|
    decreases |chars| - at
  {
    hide ChunkAt;
    if at < |chars| {
      var chunk := ChunkAt(abc, chars, at);
      StartsCount(abc, chars, chunk.to, line + chunk.crossed);
    }
  }

  /// Lexemes are found in the order they are written, each further on than the one before.
  lemma {:induction false} StartsAdvance(abc: Alphabet, chars: string, at: nat)
    ensures forall k | 0 <= k < |Starts(abc, chars, at)| :: at <= Starts(abc, chars, at)[k] < |chars|
    ensures forall j, k | 0 <= j < k < |Starts(abc, chars, at)| ::
      Starts(abc, chars, at)[j] < Starts(abc, chars, at)[k]
    decreases |chars| - at
  {
    hide ChunkAt;
    if at < |chars| {
      StartsAdvance(abc, chars, ChunkAt(abc, chars, at).to);
    }
  }

  /// The line the lexer states for its k-th lexeme, over a whole text.
  lemma LexedLines(abc: Alphabet, src: string, k: nat)
    requires !ContinuesName(abc, '\n')
    requires k < |Lexed(abc, src)|
    ensures k < |Starts(abc, src, 0)| && Starts(abc, src, 0)[k] < |src|
    ensures
      var start, stated := Starts(abc, src, 0)[k], Lexed(abc, src)[k].line;
      && stated <= 1 + Newlines(src, 0, start)
      && (stated == 1 + Newlines(src, 0, start) <==> !LostBefore(abc, src, 0, start))
  {
    LinesFrom(abc, src, 0, 1, k);
  }

  // ------------------------------------------------------- turns and the text

  /// Every character of a text is passed by some turn of the loop.
  lemma {:induction false} TurnsCoverTheText(abc: Alphabet, chars: string, at: nat, i: nat)
    requires at <= i < |chars|
    ensures exists p: nat | p <= i :: Visits(abc, chars, at, p) && i < ChunkAt(abc, chars, p).to
    decreases |chars| - at
  {
    hide ChunkAt;
    assert Visits(abc, chars, at, at);
    var to := ChunkAt(abc, chars, at).to;
    if to <= i {
      TurnsCoverTheText(abc, chars, to, i);
      var p: nat :| p <= i && Visits(abc, chars, to, p) && i < ChunkAt(abc, chars, p).to;
      assert Visits(abc, chars, at, p);
    }
  }

  /// And by no other: no turn begins among the characters a turn has passed.
  lemma {:induction false} TurnsDoNotOverlap(abc: Alphabet, chars: string, at: nat, p: nat, q: nat)
    requires Visits(abc, chars, at, p) && Visits(abc, chars, at, q) && p < q
    ensures ChunkAt(abc, chars, p).to <= q
    decreases |chars| - at
  {
    hide ChunkAt;
    var to := ChunkAt(abc, chars, at).to;
    if p != at { TurnsDoNotOverlap(abc, chars, to, p, q); }
  }

  /// The lexemes start exactly at the turns that leave one.
  lemma {:induction false} StartsAreTurns(abc: Alphabet, chars: string, at: nat, q: nat)
    ensures
      q in Starts(abc, chars, at)
      <==> Visits(abc, chars, at, q) && ChunkAt(abc, chars, q).token.Some?
    decreases |chars| - at
  {
    hide ChunkAt;
    if at < |chars| {
      var to := ChunkAt(abc, chars, at).to;
      StartsAreTurns(abc, chars, to, q);
    }
  }

  /// Whatever a turn passes - a comment, a string, a character literal - hides no lexeme: none starts
  /// after the turn's own beginning and before its end.
  lemma NothingStartsInside(abc: Alphabet, src: string, p: nat, q: nat)
    requires Visits(abc, src, 0, p) && p < q < ChunkAt(abc, src, p).to
    ensures q !in Starts(abc, src, 0)
  {
    hide ChunkAt;
    StartsAreTurns(abc, src, 0, q);
    if Visits(abc, src, 0, q) { TurnsDoNotOverlap(abc, src, 0, p, q); }
  }

  // -------------------------------------------------- texts with a wrong line

  /// The comma after a string that holds a backslash and a newline is on the second line, and the
  /// lexer states the first.
  lemma EscapedNewlineIsLost(abc: Alphabet)
    ensures
      var src := "\"\\\n\",";
      && |Lexed(abc, src)| == 2 && Lexed(abc, src)[1].line == 1
      && Starts(abc, src, 0) == [0, 4] && Newlines(src, 0, 4) == 1
  {
    var src := "\"\\\n\",";
    assert src == ['"', '\\', '\n', '"', ','];
    StringTurn(abc, src);
    LastMark(abc, src, 4);
    OneTurn(abc, src, 0, 1);
  }

  lemma StringTurn(abc: Alphabet, src: string)
    requires src == ['"', '\\', '\n', '"', ',']
    ensures ChunkAt(abc, src, 0) == Chunk(4, 0, Some((Literal, ['\\', '\n'])))
    ensures Newlines(src, 0, 4) == 1
  {
    assert StringEnd(src, 3) == 3 && StringEnd(src, 1) == 3;
    assert StringLines(src, 3) == 0 && StringLines(src, 1) == 0;
    assert src[1..3] == ['\\', '\n'];
    assert Newlines(src, 0, 1) == 0 && Newlines(src, 0, 2) == 0 && Newlines(src, 0, 3) == 1;
  }

  /// A comma at the end is one lexeme on the line the turn begins with, be it a mark or, in some
  /// alphabet, a name.
  lemma LastMark(abc: Alphabet, src: string, at: nat)
    requires at == |src| - 1 && src[at] == ','
    ensures Starts(abc, src, at) == [at]
    ensures forall line: nat ::
      |LexFrom(abc, src, at, line)| == 1 && LexFrom(abc, src, at, line)[0].line == line
  {
    var chunk := ChunkAt(abc, src, at);
    assert StringAt(src, at).None?;
    assert chunk.token.Some? && chunk.to >= |src|;
    hide ChunkAt;
    forall line: nat
      ensures |LexFrom(abc, src, at, line)| == 1 && LexFrom(abc, src, at, line)[0].line == line
    {
      OneTurn(abc, src, at, line);
    }
    OneTurn(abc, src, at, 1);
  }

  /// So is the comma after a character literal that is a newline.
  lemma NewlineLiteralIsLost(abc: Alphabet)
    ensures
      var src := "'\n',";
      && |Lexed(abc, src)| == 1 && Lexed(abc, src)[0].line == 1
      && Starts(abc, src, 0) == [3] && Newlines(src, 0, 3) == 1
  {
    var src := "'\n',";
    assert src == ['\'', '\n', '\'', ','];
    assert CharEnd(src, 2) == 3 && CharEnd(src, 1) == 3;
    assert ChunkAt(abc, src, 0) == Chunk(3, 0, None);
    assert Newlines(src, 0, 1) == 0 && Newlines(src, 0, 2) == 1 && Newlines(src, 0, 3) == 1;
    LastMark(abc, src, 3);
    OneTurn(abc, src, 0, 1);
  }

  // ---------------------------------------------- raw strings without hashes

  /// How many backslashes stand directly before the index `i`, none of them before `from`.
  function Backslashes(chars: string, from: nat, i: nat): (run: nat)
    ensures from + run <= i || run == 0
    decreases i
  {
    if i <= from || At(chars, i - 1) != Some('\\') then 0 else Backslashes(chars, from, i - 1) + 1
  }

  lemma {:induction false} BackslashesFrom(chars: string, from: nat, i: nat)
    requires from + 2 <= i && At(chars, from) == Some('\\')
    ensures Backslashes(chars, from, i) % 2 == Backslashes(chars, from + 2, i) % 2
    decreases i
  {
    if i > from + 2 && At(chars, i - 1) == Some('\\') { BackslashesFrom(chars, from, i - 1); }
  }

  lemma {:induction false} BackslashesSkip(chars: string, from: nat, i: nat)
    requires from < i && At(chars, from) != Some('\\')
    ensures Backslashes(chars, from, i) == Backslashes(chars, from + 1, i)
    decreases i
  {
    if i > from + 1 && At(chars, i - 1) == Some('\\') { BackslashesSkip(chars, from, i - 1); }
  }

  /// Reading a body with escapes stops where reading it without does, at the first quote or the end of
  /// the text, exactly when an even number of backslashes stands before that place.
  lemma {:induction false} BodyEndsAgreeIff(chars: string, at: nat)
    requires at <= |chars|
    ensures StringEnd(chars, at) == RawEnd(chars, at, 0) <==> Backslashes(chars, at, RawEnd(chars, at, 0)) % 2 == 0
    decreases |chars| - at
  {
    var end := RawEnd(chars, at, 0);
    EndsAreOrdered(chars, at);
    if at < |chars| && chars[at] == '\\' {
      if end >= at + 2 {
        BodyEndsAgreeIff(chars, at + 2);
        BackslashesFrom(chars, at, end);
      } else {
        assert end == at + 1 && Backslashes(chars, at, at + 1) == 1;
      }
    } else if at < |chars| && chars[at] != '"' {
      BodyEndsAgreeIff(chars, at + 1);
      BackslashesSkip(chars, at, end);
    }
  }

  /// The grammar ends a literal that opens with `r` and a quote at the next quote. The lexer, which
  /// reads it with escapes, finds that end and that body exactly when an even number of backslashes,
  /// zero included, stands before that quote, or before the end of the text where there is none.
  lemma HashlessRawReadsIff(chars: string, from: nat)
    requires At(chars, from) == Some('r') && At(chars, from + 1) == Some('"')
    ensures StringAt(chars, from).Some?
    ensures
      var reading, raw := StringAt(chars, from).value, RawFrom(chars, from + 1, 0);
      reading.to == raw.to && reading.body == raw.body
      <==> Backslashes(chars, from + 2, RawEnd(chars, from + 2, 0)) % 2 == 0
  {
    assert HashRun(chars, from + 1) == 0;
    BodyEndsAgreeIff(chars, from + 2);
    EndsAreOrdered(chars, from + 2);
    var end, rawEnd := StringEnd(chars, from + 2), RawEnd(chars, from + 2, 0);
    var body, rawBody := chars[from + 2..Clip(chars, end)], chars[from + 2..rawEnd];
    if end > rawEnd && rawEnd < |chars| { assert |body| > |rawBody|; }
  }

  /// The reading with escapes never stops short of the other.
  lemma {:induction false} EndsAreOrdered(chars: string, at: nat)
    requires at <= |chars|
    ensures RawEnd(chars, at, 0) <= |chars|
    ensures StringEnd(chars, at) >= RawEnd(chars, at, 0)
    decreases |chars| - at
  {
    if at < |chars| && chars[at] != '"' {
      EndsAreOrdered(chars, at + 1);
      if chars[at] == '\\' && at + 2 <= |chars| { EndsAreOrdered(chars, at + 2); }
    }
  }

  /// After the raw string of one backslash the grammar has a comma; the lexer has read it as part of
  /// the string.
  lemma RawBackslashRunsOn(abc: Alphabet)
    ensures
      var src := "r\"\\\",";
      && RawFrom(src, 1, 0).to == 4 && |src| == 5
      && |Lexed(abc, src)| == 1 && Lexed(abc, src)[0].kind == Literal
  {
    var src := "r\"\\\",";
    assert src == ['r', '"', '\\', '"', ','];
    assert RawEnd(src, 3, 0) == 3 && RawEnd(src, 2, 0) == 3;
    assert StringEnd(src, 5) == 5 && StringEnd(src, 4) == 5 && StringEnd(src, 2) == 5;
    assert HashRun(src, 1) == 0;
    var chunk := ChunkAt(abc, src, 0);
    assert chunk.to == 5 && chunk.token.Some? && chunk.token.value.0 == Literal;
    hide ChunkAt;
    OneTurn(abc, src, 0, 1);
  }
}
