/// A walk over lexemes with a stack of delimiters, and a declarative account of which literals it
/// reports.
module Walk {
  import opened Text
  import opened Lexer
  import Slots

  /// The attribute names after which a literal is reported.
  const SPOKEN: seq<string> := [
    "placeholder", "title", "alt", "aria-label", "aria-description",
    "aria-placeholder", "aria-roledescription", "aria-valuetext"]

  datatype Seat = TextNode | SpokenAttribute

  datatype Said = Said(line: nat, seat: Seat, left: string)

  /// The walk's flags for one open delimiter, or for the whole text.
  datatype Frame = Frame(element: bool, attribute: bool, opening: bool, head: string, headIsName: bool)

  function NewFrame(element: bool): Frame {
    Frame(element, false, true, "", false)
  }

  predicate IsKind(toks: seq<Lexeme>, i: int, kind: Kind) {
    0 <= i < |toks| && toks[i].kind == kind
  }

  /// Whether the delimiter at `index` follows `rsx` and one punctuation mark.
  predicate AfterRsx(toks: seq<Lexeme>, index: int) {
    IsKind(toks, index - 1, Other) && IsKind(toks, index - 2, Name) && toks[index - 2].body == "rsx"
  }

  predicate OpensAnElementBody(top: Frame, toks: seq<Lexeme>, index: int) {
    AfterRsx(toks, index) || (top.element && !top.attribute && top.headIsName && top.head != "match")
  }

  function SeatOf(top: Frame, opening: bool): Option<Seat> {
    if top.element && !top.attribute && opening then Some(TextNode)
    else if top.attribute && !opening && top.head in SPOKEN then Some(SpokenAttribute)
    else None
  }

  /// The enclosing frame once the token at `i` may have opened an item of it.
  function Begun(top: Frame, toks: seq<Lexeme>, i: nat): Frame
    requires i < |toks|
  {
    var tok := toks[i];
    if top.opening && tok.kind != Close then
      top.(head := tok.body, headIsName := tok.kind == Name, opening := false,
           attribute := top.element && IsKind(toks, i + 1, Colon) && (tok.kind == Name || tok.kind == Literal))
    else top
  }

  function Last<T>(s: seq<T>): T
    requires s != []
  {
    s[|s| - 1]
  }

  function WithLast<T>(s: seq<T>, x: T): (updated: seq<T>)
    requires s != []
    ensures |updated| == |s|
  {
    s[|s| - 1 := x]
  }

  function BegunStack(stack: seq<Frame>, toks: seq<Lexeme>, i: nat): seq<Frame>
    requires i < |toks|
  {
    if stack == [] then stack else WithLast(stack, Begun(Last(stack), toks, i))
  }

  /// The stack after the token at `i`, whose item has begun.
  function Stepped(stack: seq<Frame>, toks: seq<Lexeme>, i: nat): seq<Frame>
    requires i < |toks|
  {
    match toks[i].kind
    case Brace =>
      stack + [NewFrame(if stack == [] then AfterRsx(toks, i) else OpensAnElementBody(Last(stack), toks, i))]
    case Bracket => stack + [NewFrame(false)]
    case Close =>
      var popped := if |stack| > 1 then stack[..|stack| - 1] else stack;
      if popped == [] then popped else WithLast(popped, Last(popped).(opening := false))
    case Break =>
      if stack == [] then stack
      else WithLast(stack, Last(stack).(opening := true, attribute := false, head := "", headIsName := false))
    case _ => stack
  }

  /// The stack once the first `i` tokens are read.
  function StackAfter(toks: seq<Lexeme>, i: nat): seq<Frame>
    requires i <= |toks|
  {
    if i == 0 then [NewFrame(false)]
    else Stepped(BegunStack(StackAfter(toks, i - 1), toks, i - 1), toks, i - 1)
  }

  function Spoken(stack: seq<Frame>, toks: seq<Lexeme>, i: nat): Option<Said>
    requires i < |toks|
  {
    if stack == [] || toks[i].kind != Literal then None
    else
      match SeatOf(Begun(Last(stack), toks, i), Last(stack).opening)
      case None => None
      case Some(seat) =>
        match Slots.Words(toks[i].body)
        case None => None
        case Some(left) => Some(Said(toks[i].line, seat, left))
  }

  /// What the walk reports at the token `i`.
  function SaidAt(toks: seq<Lexeme>, i: nat): Option<Said>
    requires i < |toks|
  {
    Spoken(StackAfter(toks, i), toks, i)
  }

  function AllSaid(toks: seq<Lexeme>, n: nat): seq<Said>
    requires n <= |toks|
  {
    if n == 0 then []
    else AllSaid(toks, n - 1) + if SaidAt(toks, n - 1).Some? then [SaidAt(toks, n - 1).value] else []
  }

  /// What `SaidAt` says of each lexeme, in order.
  method HandedToAReader(abc: Alphabet, src: string) returns (out: seq<Said>)
    ensures var toks := Lexed(abc, src); out == AllSaid(toks, |toks|)
  {
    hide Lexed, Slots.Words, SeatOf, Stepped, Begun, StackAfter, AllSaid;
    var toks := LexSource(abc, src);
    var stack: seq<Frame> := [NewFrame(false)];
    out := [];
    NothingRead(toks);
    for index := 0 to |toks|
      invariant stack == StackAfter(toks, index)
      invariant out == AllSaid(toks, index)
    {
      var tok := toks[index];
      OneTokenOn(toks, index);
      SaidStep(toks, index);
      if stack != [] {
        var opening := Last(stack).opening;
        var top := BeginItem(Last(stack), toks, index);
        stack := WithLast(stack, top);
        if tok.kind == Literal {
          var seat := SeatOf(top, opening);
          if seat.Some? {
            var left := Slots.WordsTheViewWrote(tok.body);
            if left.Some? { out := out + [Said(tok.line, seat.value, left.value)]; }
          }
        }
        stack := Step(stack, toks, index);
      } else {
        StackNeverEmpty(toks, index);
      }
    }
  }

  method BeginItem(topWas: Frame, toks: seq<Lexeme>, index: nat) returns (top: Frame)
    requires index < |toks|
    ensures top == Begun(topWas, toks, index)
  {
    top := topWas;
    var tok := toks[index];
    if top.opening && tok.kind != Close {
      top := top.(head := tok.body, headIsName := tok.kind == Name, opening := false);
      top := top.(attribute := top.element && IsKind(toks, index + 1, Colon)
                               && (tok.kind == Name || tok.kind == Literal));
    }
  }

  lemma NothingRead(toks: seq<Lexeme>)
    ensures StackAfter(toks, 0) == [NewFrame(false)] && AllSaid(toks, 0) == []
  {
  }

  lemma SaidStep(toks: seq<Lexeme>, i: nat)
    requires i < |toks|
    ensures AllSaid(toks, i + 1)
         == AllSaid(toks, i) + if SaidAt(toks, i).Some? then [SaidAt(toks, i).value] else []
  {
    hide SaidAt;
  }

  method Step(stackWas: seq<Frame>, toks: seq<Lexeme>, index: nat) returns (stack: seq<Frame>)
    requires index < |toks| && stackWas != []
    ensures stack == Stepped(stackWas, toks, index)
  {
    stack := stackWas;
    match toks[index].kind
    case Brace =>
      var element := OpensAnElementBody(Last(stack), toks, index);
      stack := stack + [NewFrame(element)];
    case Bracket =>
      stack := stack + [NewFrame(false)];
    case Close =>
      if |stack| > 1 { stack := stack[..|stack| - 1]; }
      stack := WithLast(stack, Last(stack).(opening := false));
    case Break =>
      stack := WithLast(stack, Last(stack).(opening := true, attribute := false, head := "", headIsName := false));
    case _ =>
  }

  /// However unbalanced the source is, there is always a frame to be in.
  lemma {:induction false} StackNeverEmpty(toks: seq<Lexeme>, i: nat)
    requires i <= |toks|
    ensures StackAfter(toks, i) != []
  {
    if i > 0 { StackNeverEmpty(toks, i - 1); }
  }

  // ------------------------------------------------------------------ locality

  predicate Opens(toks: seq<Lexeme>, i: nat)
    requires i < |toks|
  {
    toks[i].kind == Brace || toks[i].kind == Bracket
  }

  /// How much deeper the tokens `from..upto` end than they began.
  function Nesting(toks: seq<Lexeme>, from: nat, upto: nat): int
    requires from <= upto <= |toks|
    decreases upto
  {
    if from == upto then 0
    else
      Nesting(toks, from, upto - 1) + Turn(toks, upto - 1)
  }

  function Turn(toks: seq<Lexeme>, i: nat): int
    requires i < |toks|
  {
    if Opens(toks, i) then 1 else if toks[i].kind == Close then -1 else 0
  }

  /// `j` is the delimiter that closes the one opened at `i`.
  ghost predicate Pair(toks: seq<Lexeme>, i: nat, j: nat) {
    && i < j < |toks| && Opens(toks, i) && toks[j].kind == Close
    && Nesting(toks, i + 1, j) == 0 && NeverBelow(toks, i + 1, j)
  }

  ghost predicate NeverBelow(toks: seq<Lexeme>, from: nat, upto: nat)
    requires upto <= |toks|
  {
    forall k | from <= k <= upto :: Nesting(toks, from, k) >= 0
  }

  /// A token that stays above the lowest `n` frames changes none of them.
  lemma TokenKeepsBelow(stack: seq<Frame>, toks: seq<Lexeme>, i: nat, n: nat)
    requires i < |toks| && |stack| > n && |stack| + Turn(toks, i) > n
    ensures
      var after := Stepped(BegunStack(stack, toks, i), toks, i);
      |after| == |stack| + Turn(toks, i) && after[..n] == stack[..n]
  {
    hide Begun, OpensAnElementBody;
  }

  lemma {:induction false} InsideAPair(toks: seq<Lexeme>, i: nat, j: nat, k: nat)
    requires Pair(toks, i, j) && i < k <= j
    ensures
      var below := BegunStack(StackAfter(toks, i), toks, i);
      && |StackAfter(toks, k)| == |below| + 1 + Nesting(toks, i + 1, k)
      && StackAfter(toks, k)[..|below|] == below
    decreases k
  {
    hide Stepped, BegunStack, Turn;
    var below := BegunStack(StackAfter(toks, i), toks, i);
    if k > i + 1 {
      InsideAPair(toks, i, j, k - 1);
      assert Nesting(toks, i + 1, k) >= 0;
      TokenKeepsBelow(StackAfter(toks, k - 1), toks, k - 1, |below|);
    } else {
      OpenerPushes(toks, i);
    }
  }

  lemma OpenerPushes(toks: seq<Lexeme>, i: nat)
    requires i < |toks| && Opens(toks, i)
    ensures
      var below := BegunStack(StackAfter(toks, i), toks, i);
      |StackAfter(toks, i + 1)| == |below| + 1 && StackAfter(toks, i + 1)[..|below|] == below
  {
    hide BegunStack;
  }

  /// A balanced pair of delimiters, whatever stands between them, leaves the whole stack as its
  /// opener found it: every frame below, and the enclosing item's element, attribute and head.
  lemma BalancedPairIsLocal(toks: seq<Lexeme>, i: nat, j: nat)
    requires Pair(toks, i, j)
    ensures StackAfter(toks, j + 1) == BegunStack(StackAfter(toks, i), toks, i)
  {
    hide StackAfter;
    var below := BegunStack(StackAfter(toks, i), toks, i);
    StackNeverEmpty(toks, i);
    InsideAPair(toks, i, j, j);
    OneTokenOn(toks, j);
    CloserPops(toks, below, StackAfter(toks, j), j);
    BegunIsNotOpening(toks, StackAfter(toks, i), i);
  }

  lemma CloserPops(toks: seq<Lexeme>, below: seq<Frame>, stack: seq<Frame>, j: nat)
    requires j < |toks| && toks[j].kind == Close && below != []
    requires |stack| == |below| + 1 && stack[..|below|] == below
    ensures Stepped(BegunStack(stack, toks, j), toks, j) == WithLast(below, Last(below).(opening := false))
  {
    var begun := BegunStack(stack, toks, j);
    assert begun[..|begun| - 1] == below;
  }

  /// An item that a delimiter is part of has begun, so setting its flag again changes nothing.
  lemma BegunIsNotOpening(toks: seq<Lexeme>, stack: seq<Frame>, i: nat)
    requires stack != [] && i < |toks| && Opens(toks, i)
    ensures var below := BegunStack(stack, toks, i); WithLast(below, Last(below).(opening := false)) == below
  {
    var below := BegunStack(stack, toks, i);
    assert Last(below).(opening := false) == Last(below);
  }

  // ------------------------------------------------- where a token sits, declaratively

  /// The index of an unclosed delimiter, or none for the whole text, and the index of its current
  /// item's first token, if it has one.
  datatype Place = Place(opener: Option<nat>, head: Option<nat>)

  /// Whether the token at `i` is the first after a delimiter that opened or a separator.
  predicate BeginsAnItem(toks: seq<Lexeme>, i: nat)
    requires i <= |toks|
  {
    i == 0 || Opens(toks, i - 1) || toks[i - 1].kind == Break
  }

  /// The delimiters open before the token `i`: nesting alone, no judgement about elements.
  function PlacesAt(toks: seq<Lexeme>, i: nat): (places: seq<Place>)
    requires i <= |toks|
    ensures places != []
  {
    if i == 0 then [Place(None, None)] else Moved(PlacesAt(toks, i - 1), toks, i - 1)
  }

  function Headed(places: seq<Place>, toks: seq<Lexeme>, i: nat): (begun: seq<Place>)
    requires places != [] && i < |toks|
    ensures begun != []
  {
    if BeginsAnItem(toks, i) && toks[i].kind != Close
    then WithLast(places, Last(places).(head := Some(i))) else places
  }

  function Moved(places: seq<Place>, toks: seq<Lexeme>, i: nat): (after: seq<Place>)
    requires places != [] && i < |toks|
    ensures after != []
  {
    var begun := Headed(places, toks, i);
    if Opens(toks, i) then begun + [Place(Some(i), None)]
    else if toks[i].kind == Close then (if |begun| > 1 then begun[..|begun| - 1] else begun)
    else if toks[i].kind == Break then WithLast(begun, Last(begun).(head := None))
    else begun
  }

  /// The item's first token is an attribute name.
  predicate NamesAnAttribute(toks: seq<Lexeme>, head: Option<nat>) {
    && head.Some?
    && (IsKind(toks, head.value, Name) || IsKind(toks, head.value, Literal))
    && IsKind(toks, head.value + 1, Colon)
  }

  /// The item's first token is an identifier other than `match`.
  predicate HeadsAnElement(toks: seq<Lexeme>, head: Option<nat>) {
    head.Some? && IsKind(toks, head.value, Name) && toks[head.value].body != "match"
  }

  predicate OpenedByBrace(toks: seq<Lexeme>, place: Place) {
    place.opener.Some? && IsKind(toks, place.opener.value, Brace)
  }

  /// The innermost delimiter is the last link of an unbroken chain of braces that begins at an
  /// `rsx!`, each further brace opened in an item that is an element and not an attribute.
  ghost predicate UnderRsx(toks: seq<Lexeme>, places: seq<Place>) {
    exists r | 0 < r < |places| :: ChainFrom(toks, places, r)
  }

  ghost predicate ChainFrom(toks: seq<Lexeme>, places: seq<Place>, r: nat)
    requires 0 < r < |places|
  {
    && OpenedByBrace(toks, places[r]) && AfterRsx(toks, places[r].opener.value)
    && forall k | r < k < |places| :: LinkedTo(toks, places[k - 1], places[k])
  }

  predicate LinkedTo(toks: seq<Lexeme>, outer: Place, inner: Place) {
    && OpenedByBrace(toks, inner)
    && HeadsAnElement(toks, outer.head) && !NamesAnAttribute(toks, outer.head)
  }

  lemma ChainExtends(toks: seq<Lexeme>, places: seq<Place>)
    requires |places| > 1
    ensures UnderRsx(toks, places) <==>
      && OpenedByBrace(toks, Last(places))
      && (|| AfterRsx(toks, Last(places).opener.value)
          || (UnderRsx(toks, places[..|places| - 1])
              && LinkedTo(toks, places[|places| - 2], Last(places))))
  {
    hide LinkedTo, AfterRsx;
    var n := |places| - 1;
    var front := places[..n];
    if UnderRsx(toks, places) {
      var r :| 0 < r < |places| && ChainFrom(toks, places, r);
      if r < n {
        assert LinkedTo(toks, places[n - 1], places[n]);
        LinkedMeansBrace(toks, places[n - 1], places[n]);
        forall k | r < k < |front|
          ensures LinkedTo(toks, front[k - 1], front[k])
        {
          assert LinkedTo(toks, places[k - 1], places[k]);
        }
        assert ChainFrom(toks, front, r);
      }
    }
    if OpenedByBrace(toks, places[n]) {
      if AfterRsx(toks, places[n].opener.value) { assert ChainFrom(toks, places, n); }
      if UnderRsx(toks, front) && LinkedTo(toks, places[n - 1], places[n]) {
        var r :| 0 < r < |front| && ChainFrom(toks, front, r);
        forall k | r < k < |places|
          ensures LinkedTo(toks, places[k - 1], places[k])
        {
          if k < n { assert LinkedTo(toks, front[k - 1], front[k]); }
        }
        assert ChainFrom(toks, places, r);
      }
    }
  }

  lemma LinkedMeansBrace(toks: seq<Lexeme>, outer: Place, inner: Place)
    requires LinkedTo(toks, outer, inner)
    ensures OpenedByBrace(toks, inner)
  {
  }

  /// What the frame of an innermost place has to hold.
  ghost function Reading(toks: seq<Lexeme>, places: seq<Place>, opening: bool): Frame
    requires places != []
  {
    var head := Last(places).head;
    Frame(UnderRsx(toks, places),
          UnderRsx(toks, places) && NamesAnAttribute(toks, head),
          opening,
          if head.Some? && head.value < |toks| then toks[head.value].body else "",
          head.Some? && IsKind(toks, head.value, Name))
  }

  ghost predicate Agrees(toks: seq<Lexeme>, stack: seq<Frame>, places: seq<Place>, opening: bool) {
    && |stack| == |places|
    && forall k | 0 <= k < |places| ::
         stack[k] == Reading(toks, places[..k + 1], opening && k == |places| - 1)
  }

  /// The innermost place's head has no say in whether it is under `rsx!`.
  lemma HeadIsIrrelevant(toks: seq<Lexeme>, places: seq<Place>, head: Option<nat>)
    requires places != []
    ensures UnderRsx(toks, WithLast(places, Last(places).(head := head))) <==> UnderRsx(toks, places)
  {
    hide LinkedTo, AfterRsx, UnderRsx;
    var other := WithLast(places, Last(places).(head := head));
    if |places| > 1 {
      ChainExtends(toks, places);
      ChainExtends(toks, other);
      assert other[..|places| - 1] == places[..|places| - 1];
      assert other[|places| - 2] == places[|places| - 2];
      LinkIgnoresInnerHead(toks, places[|places| - 2], Last(places), head);
    } else {
      OnlyRoot(toks, places);
      OnlyRoot(toks, other);
    }
  }

  lemma OnlyRoot(toks: seq<Lexeme>, places: seq<Place>)
    requires |places| == 1
    ensures !UnderRsx(toks, places)
  {
  }

  lemma LinkIgnoresInnerHead(toks: seq<Lexeme>, outer: Place, inner: Place, head: Option<nat>)
    ensures LinkedTo(toks, outer, inner.(head := head)) <==> LinkedTo(toks, outer, inner)
  {
  }

  lemma AgreesBelow(toks: seq<Lexeme>, stack: seq<Frame>, places: seq<Place>, opening: bool)
    requires Agrees(toks, stack, places, opening) && |places| > 1
    ensures Agrees(toks, stack[..|stack| - 1], places[..|places| - 1], false)
  {
    hide Reading;
    var front := places[..|places| - 1];
    forall k | 0 <= k < |front|
      ensures stack[k] == Reading(toks, front[..k + 1], false && k == |front| - 1)
    {
      assert front[..k + 1] == places[..k + 1];
    }
  }

  /// Replacing the innermost frame and place keeps agreement when the two new ones agree.
  lemma AgreesWithLast(toks: seq<Lexeme>, stack: seq<Frame>, places: seq<Place>, opening: bool,
                       frame: Frame, place: Place, freshNow: bool)
    requires places != [] && Agrees(toks, stack, places, opening)
    requires frame == Reading(toks, WithLast(places, place), freshNow)
    ensures Agrees(toks, WithLast(stack, frame), WithLast(places, place), freshNow)
  {
    hide Reading;
    var updated := WithLast(places, place);
    forall k | 0 <= k < |updated|
      ensures WithLast(stack, frame)[k] == Reading(toks, updated[..k + 1], freshNow && k == |updated| - 1)
    {
      if k < |updated| - 1 {
        assert updated[..k + 1] == places[..k + 1];
      } else {
        assert updated[..k + 1] == updated;
      }
    }
  }

  lemma PushedFrame(toks: seq<Lexeme>, stack: seq<Frame>, opener: nat)
    requires stack != [] && opener < |toks| && Opens(toks, opener)
    ensures
      var element := toks[opener].kind == Brace && OpensAnElementBody(Last(stack), toks, opener);
      Stepped(stack, toks, opener) == stack + [NewFrame(element)]
  {
    hide OpensAnElementBody;
  }

  lemma PushedReads(toks: seq<Lexeme>, places: seq<Place>, opener: nat)
    requires places != [] && opener < |toks| && Opens(toks, opener)
    ensures
      var top := Reading(toks, places, false);
      var element := toks[opener].kind == Brace && OpensAnElementBody(top, toks, opener);
      NewFrame(element) == Reading(toks, places + [Place(Some(opener), None)], true)
  {
    hide UnderRsx;
    var inner := places + [Place(Some(opener), None)];
    ChainExtends(toks, inner);
    assert inner[..|inner| - 1] == places;
  }

  lemma AgreesPush(toks: seq<Lexeme>, stack: seq<Frame>, places: seq<Place>, opener: nat)
    requires places != [] && Agrees(toks, stack, places, false) && opener < |toks|
    requires Opens(toks, opener)
    ensures Agrees(toks, Stepped(stack, toks, opener), places + [Place(Some(opener), None)], true)
  {
    hide Reading, Stepped, UnderRsx, OpensAnElementBody;
    var inner := places + [Place(Some(opener), None)];
    var element := toks[opener].kind == Brace && OpensAnElementBody(Last(stack), toks, opener);
    assert Last(stack) == Reading(toks, places, false) by { assert places[..|places|] == places; }
    PushedReads(toks, places, opener);
    var pushed := stack + [NewFrame(element)];
    PushedFrame(toks, stack, opener);
    forall k | 0 <= k < |inner|
      ensures pushed[k] == Reading(toks, inner[..k + 1], true && k == |inner| - 1)
    {
      if k < |places| {
        assert inner[..k + 1] == places[..k + 1];
      } else {
        assert inner[..k + 1] == inner;
      }
    }
  }

  lemma BegunAgrees(toks: seq<Lexeme>, stack: seq<Frame>, places: seq<Place>, i: nat)
    requires places != [] && i < |toks| && Agrees(toks, stack, places, BeginsAnItem(toks, i))
    ensures Agrees(toks, BegunStack(stack, toks, i), Headed(places, toks, i),
                   BeginsAnItem(toks, i) && toks[i].kind == Close)
  {
    var opening := BeginsAnItem(toks, i);
    var top := Last(stack);
    assert top == Reading(toks, places, opening) by { assert places[..|places|] == places; }
    if opening && toks[i].kind != Close {
      var place := Last(places).(head := Some(i));
      HeadIsIrrelevant(toks, places, Some(i));
      assert Begun(top, toks, i) == Reading(toks, WithLast(places, place), false) by { hide UnderRsx; }
      AgreesWithLast(toks, stack, places, opening, Begun(top, toks, i), place, false);
    } else {
      assert Begun(top, toks, i) == top && WithLast(stack, top) == stack;
    }
  }

  lemma CloseAgrees(toks: seq<Lexeme>, stack: seq<Frame>, places: seq<Place>, opening: bool, i: nat)
    requires places != [] && i < |toks| && toks[i].kind == Close && Agrees(toks, stack, places, opening)
    ensures Agrees(toks, Stepped(stack, toks, i), if |places| > 1 then places[..|places| - 1] else places, false)
  {
    var popped := if |stack| > 1 then stack[..|stack| - 1] else stack;
    var left := if |places| > 1 then places[..|places| - 1] else places;
    var was := |places| == 1 && opening;
    if |places| > 1 { AgreesBelow(toks, stack, places, opening); }
    assert Agrees(toks, popped, left, was);
    assert Last(popped) == Reading(toks, left, was) by { assert left[..|left|] == left; }
    assert WithLast(left, Last(left)) == left;
    AgreesWithLast(toks, popped, left, was, Last(popped).(opening := false), Last(left), false);
  }

  lemma BreakAgrees(toks: seq<Lexeme>, stack: seq<Frame>, places: seq<Place>, i: nat)
    requires places != [] && i < |toks| && toks[i].kind == Break && Agrees(toks, stack, places, false)
    ensures Agrees(toks, Stepped(stack, toks, i), WithLast(places, Last(places).(head := None)), true)
  {
    var top := Last(stack);
    assert top == Reading(toks, places, false) by { assert places[..|places|] == places; }
    HeadIsIrrelevant(toks, places, None);
    var cleared := top.(opening := true, attribute := false, head := "", headIsName := false);
    AgreesWithLast(toks, stack, places, false, cleared, Last(places).(head := None), true);
  }

  lemma TokenAgrees(toks: seq<Lexeme>, stack: seq<Frame>, places: seq<Place>, i: nat)
    requires places != [] && i < |toks| && Agrees(toks, stack, places, BeginsAnItem(toks, i))
    ensures Agrees(toks, Stepped(BegunStack(stack, toks, i), toks, i), Moved(places, toks, i),
                   BeginsAnItem(toks, i + 1))
  {
    BegunAgrees(toks, stack, places, i);
    var begunStack, begun := BegunStack(stack, toks, i), Headed(places, toks, i);
    hide Agrees, BegunStack, Headed;
    if Opens(toks, i) {
      AgreesPush(toks, begunStack, begun, i);
    } else if toks[i].kind == Close {
      CloseAgrees(toks, begunStack, begun, BeginsAnItem(toks, i), i);
    } else if toks[i].kind == Break {
      BreakAgrees(toks, begunStack, begun, i);
    }
  }

  /// The walk's mutable flags hold, at every token and in every frame, exactly what nesting and the
  /// item's first token say they should.
  lemma {:induction false} WalkRefinesPlaces(toks: seq<Lexeme>, i: nat)
    requires i <= |toks|
    ensures Agrees(toks, StackAfter(toks, i), PlacesAt(toks, i), BeginsAnItem(toks, i))
  {
    hide *;
    if i == 0 {
      RootReads(toks);
    } else {
      WalkRefinesPlaces(toks, i - 1);
      TokenAgrees(toks, StackAfter(toks, i - 1), PlacesAt(toks, i - 1), i - 1);
      OneTokenOn(toks, i - 1);
    }
  }

  lemma OneTokenOn(toks: seq<Lexeme>, i: nat)
    requires i < |toks|
    ensures StackAfter(toks, i + 1) == Stepped(BegunStack(StackAfter(toks, i), toks, i), toks, i)
    ensures PlacesAt(toks, i + 1) == Moved(PlacesAt(toks, i), toks, i)
  {
    hide Stepped, BegunStack, Moved;
  }

  lemma RootReads(toks: seq<Lexeme>)
    ensures Agrees(toks, StackAfter(toks, 0), PlacesAt(toks, 0), BeginsAnItem(toks, 0))
  {
    OnlyRoot(toks, PlacesAt(toks, 0));
    assert PlacesAt(toks, 0)[..1] == PlacesAt(toks, 0);
  }

  /// Exactly which literals are reported: words of the view's own that stand either as an item of
  /// an element body, or after the first token of an item that names a spoken attribute - in both
  /// cases under an `rsx!` through an unbroken chain of element braces. A call argument, an array
  /// element or a match pattern is in no such place.
  lemma ReportedIff(toks: seq<Lexeme>, i: nat)
    requires i < |toks|
    ensures
      var places := PlacesAt(toks, i);
      var head := Last(places).head;
      var textNode := BeginsAnItem(toks, i) && !IsKind(toks, i + 1, Colon);
      var spoken :=
        && !BeginsAnItem(toks, i) && NamesAnAttribute(toks, head)
        && toks[head.value].body in SPOKEN;
      && (SaidAt(toks, i).Some? <==>
          && toks[i].kind == Literal && Slots.Words(toks[i].body).Some?
          && UnderRsx(toks, places) && (textNode || spoken))
      && (SaidAt(toks, i).Some? ==>
          SaidAt(toks, i).value == Said(toks[i].line, if textNode then TextNode else SpokenAttribute,
                                        Slots.Words(toks[i].body).value))
  {
    hide UnderRsx, Slots.Words;
    WalkRefinesPlaces(toks, i);
    var places := PlacesAt(toks, i);
    assert places[..|places|] == places;
    assert Last(StackAfter(toks, i)) == Reading(toks, places, BeginsAnItem(toks, i));
  }

  /// Nothing directly inside parentheses or brackets is reported, so no argument of a call is
  /// without an `rsx!` of its own.
  lemma ArgumentsAreNotReported(toks: seq<Lexeme>, i: nat)
    requires i < |toks|
    requires var opener := Last(PlacesAt(toks, i)).opener;
      opener.Some? ==> !IsKind(toks, opener.value, Brace)
    ensures SaidAt(toks, i).None?
  {
    hide SaidAt, Slots.Words;
    ReportedIff(toks, i);
    var places := PlacesAt(toks, i);
    if |places| > 1 {
      ChainExtends(toks, places);
    } else {
      OnlyRoot(toks, places);
    }
  }

  /// At any depth: a literal inside a delimiter that is no brace is reported only where a brace after
  /// `rsx!` stands further in.
  lemma ArgumentsNeedTheirOwnRsx(toks: seq<Lexeme>, i: nat, b: nat)
    requires i < |toks| && SaidAt(toks, i).Some? && b < |PlacesAt(toks, i)|
    requires !OpenedByBrace(toks, PlacesAt(toks, i)[b])
    ensures exists r | b < r < |PlacesAt(toks, i)| ::
      && OpenedByBrace(toks, PlacesAt(toks, i)[r])
      && AfterRsx(toks, PlacesAt(toks, i)[r].opener.value)
  {
    hide SaidAt, Slots.Words, AfterRsx, PlacesAt;
    ReportedIff(toks, i);
    var places := PlacesAt(toks, i);
    var r :| 0 < r < |places| && ChainFrom(toks, places, r);
    if r <= b { ChainsAreBraces(toks, places, r, b); }
  }

  lemma ChainsAreBraces(toks: seq<Lexeme>, places: seq<Place>, r: nat, b: nat)
    requires 0 < r <= b < |places| && ChainFrom(toks, places, r)
    ensures OpenedByBrace(toks, places[b])
  {
    hide AfterRsx;
    if r < b { assert LinkedTo(toks, places[b - 1], places[b]); }
  }
}
