/// Snapshots of a page: labels, the nodes kept of a tree, their text and its inverse, and what
/// references resolve to.
module Snapshot {
  import opened Text

  const LABEL_MAX: nat := 120
  const ELLIPSIS: char := '\U{2026}'

  const ROLES: seq<string> := [
    "button", "link", "textbox", "checkbox", "radio", "combobox", "listbox", "option", "tab",
    "heading", "alert", "dialog", "table", "form"]

  // ------------------------------------------------------------------- labels

  function Cleaned(raw: string): (cleaned: string)
    ensures |cleaned| == |raw|
    ensures forall i | 0 <= i < |cleaned| :: !IsControl(cleaned[i])
  {
    seq(|raw|, i requires 0 <= i < |raw| => if IsControl(raw[i]) then ' ' else raw[i])
  }

  /// Where the word a text begins with ends.
  function WordEnd(s: string): (n: nat)
    ensures n <= |s|
    ensures forall i | 0 <= i < n :: !IsWhitespace(s[i])
    ensures n < |s| ==> IsWhitespace(s[n])
  {
    if s == [] || IsWhitespace(s[0]) then 0 else 1 + WordEnd(s[1..])
  }

  /// `str::split_whitespace`.
  function SplitWords(s: string): seq<string>
    decreases |s|
  {
    var rest := TrimStart(s);
    if rest == [] then []
    else
      assert WordEnd(rest) >= 1;
      [rest[..WordEnd(rest)]] + SplitWords(rest[WordEnd(rest)..])
  }

  function Joined(words: seq<string>): string {
    if words == [] then ""
    else if |words| == 1 then words[0]
    else words[0] + " " + Joined(words[1..])
  }

  function Normalized(raw: string): string {
    Joined(SplitWords(Cleaned(raw)))
  }

  /// The label a node keeps of its name.
  function Label(raw: string): string {
    var trimmed := Normalized(raw);
    if |trimmed| <= LABEL_MAX then trimmed else trimmed[..LABEL_MAX] + [ELLIPSIS]
  }

  /// One line of words: no control character, and no whitespace but single spaces between words.
  predicate Tidy(s: string) {
    forall i | 0 <= i < |s| :: TidyAt(s, i)
  }

  predicate TidyAt(s: string, i: nat)
    requires i < |s|
  {
    && !IsControl(s[i])
    && (IsWhitespace(s[i]) ==> s[i] == ' ' && 0 < i < |s| - 1 && !IsWhitespace(s[i + 1]))
  }

  predicate IsWord(w: string) {
    w != [] && forall i | 0 <= i < |w| :: !IsWhitespace(w[i]) && !IsControl(w[i])
  }

  lemma {:induction false} SplitGivesWords(s: string)
    requires forall i | 0 <= i < |s| :: !IsControl(s[i])
    ensures forall k | 0 <= k < |SplitWords(s)| :: IsWord(SplitWords(s)[k])
    decreases |s|
  {
    hide IsControl, IsWhitespace, SplitWords, WordEnd, TrimStart, IsWord;
    var rest := TrimStart(s);
    SplitStep(s);
    TrimmedIsPart(s);
    if rest != [] {
      var n := WordEnd(rest);
      SplitGivesWords(rest[n..]);
      WordEndsAWord(rest);
      forall k | 0 <= k < |SplitWords(s)|
        ensures IsWord(SplitWords(s)[k])
      {
        if k > 0 { assert SplitWords(s)[k] == SplitWords(rest[n..])[k - 1]; }
      }
    }
  }

  lemma TrimmedIsPart(s: string)
    ensures
      var rest := TrimStart(s);
      |rest| <= |s| && forall i | 0 <= i < |rest| :: rest[i] == s[|s| - |rest| + i]
  {
  }

  lemma WordEndsAWord(rest: string)
    requires WordEnd(rest) >= 1 && forall i | 0 <= i < |rest| :: !IsControl(rest[i])
    ensures IsWord(rest[..WordEnd(rest)])
  {
    hide IsControl, IsWhitespace;
  }

  lemma SplitStep(s: string)
    ensures
      var rest := TrimStart(s);
      if rest == [] then SplitWords(s) == []
      else
        var n := WordEnd(rest);
        1 <= n && SplitWords(s) == [rest[..n]] + SplitWords(rest[n..])
  {
  }

  lemma {:induction false} JoinedIsTidy(words: seq<string>)
    requires forall k | 0 <= k < |words| :: IsWord(words[k])
    ensures Tidy(Joined(words)) && (words != [] ==> Joined(words) != [])
    ensures words != [] ==> !IsWhitespace(Joined(words)[0])
  {
    if |words| > 1 {
      var first, tail := words[0], Joined(words[1..]);
      JoinedIsTidy(words[1..]);
      assert IsWord(first);
      TidyAppend(first, tail);
    } else if |words| == 1 {
      assert IsWord(words[0]);
    }
  }

  lemma TidyAppend(word: string, tail: string)
    requires IsWord(word) && Tidy(tail) && tail != [] && !IsWhitespace(tail[0])
    ensures Tidy(word + " " + tail)
  {
    hide IsControl;
    var s := word + " " + tail;
    assert !IsControl(' ') by { SpaceIsNoControl(); }
    forall i | 0 <= i < |s|
      ensures TidyAt(s, i)
    {
      if i < |word| {
        assert s[i] == word[i];
      } else if i > |word| {
        var j := i - |word| - 1;
        assert TidyAt(tail, j) && s[i] == tail[j];
        if j + 1 < |tail| { assert s[i + 1] == tail[j + 1]; }
      }
    }
  }

  lemma SplitFirstWord(s: string)
    requires s != [] && !IsWhitespace(s[0])
    ensures WordEnd(s) >= 1 && SplitWords(s) == [s[..WordEnd(s)]] + SplitWords(s[WordEnd(s)..])
  {
    assert TrimStart(s) == s;
  }

  /// After a tidy text's first word comes nothing, or one space and a tidy text.
  lemma TidyAfterWord(s: string)
    requires Tidy(s) && s != []
    ensures !IsWhitespace(s[0])
    ensures
      var n := WordEnd(s);
      && 1 <= n
      && (n < |s| ==> n + 1 < |s| && s[n] == ' ' && Tidy(s[n + 1..]) && !IsWhitespace(s[n + 1]))
  {
    hide IsControl, IsWhitespace;
    assert TidyAt(s, 0);
    var n := WordEnd(s);
    if n < |s| {
      assert TidyAt(s, n);
      TidyDrops(s, n + 1);
    }
  }

  lemma SplitAfterSpace(next: string)
    requires next != [] && !IsWhitespace(next[0])
    ensures SplitWords(" " + next) == SplitWords(next) && SplitWords(next) != []
  {
    var rest := " " + next;
    assert rest[1..] == next;
    assert TrimStart(rest) == next && TrimStart(next) == next;
  }

  lemma NothingSplits()
    ensures SplitWords("") == []
  {
  }

  /// A tidy text is already its own normal form.
  lemma {:induction false} TidyIsNormal(s: string)
    requires Tidy(s)
    ensures Joined(SplitWords(s)) == s
    decreases |s|
  {
    hide Tidy, SplitWords, IsWhitespace, WordEnd;
    if s == [] {
      NothingSplits();
    } else {
      TidyAfterWord(s);
      SplitFirstWord(s);
      var n := WordEnd(s);
      if n == |s| {
        NothingSplits();
        assert s[n..] == "" && s[..n] == s;
      } else {
        var next := s[n + 1..];
        TidyIsNormal(next);
        SplitAfterSpace(next);
        assert s[n..] == " " + next && s == s[..n] + " " + next;
        var words := [s[..n]] + SplitWords(next);
        assert words[1..] == SplitWords(next);
      }
    }
  }

  lemma SpaceIsNoControl()
    ensures !IsControl(' ')
  {
  }

  lemma TidyDrops(s: string, n: nat)
    requires Tidy(s) && 0 < n < |s| && !IsWhitespace(s[n])
    ensures Tidy(s[n..])
  {
    hide IsControl, IsWhitespace;
    var t := s[n..];
    forall i | 0 <= i < |t|
      ensures TidyAt(t, i)
    {
      assert TidyAt(s, n + i) && t[i] == s[n + i];
      if i + 1 < |t| { assert t[i + 1] == s[n + i + 1]; }
    }
  }

  lemma NormalizedIsTidy(raw: string)
    ensures Tidy(Normalized(raw))
  {
    SplitGivesWords(Cleaned(raw));
    JoinedIsTidy(SplitWords(Cleaned(raw)));
  }

  lemma CutIsTidy(s: string)
    requires Tidy(s) && |s| > LABEL_MAX
    ensures Tidy(s[..LABEL_MAX] + [ELLIPSIS])
  {
    assert !IsWhitespace(ELLIPSIS) && !IsControl(ELLIPSIS);
    hide IsControl, IsWhitespace, ELLIPSIS;
    var t := s[..LABEL_MAX] + [ELLIPSIS];
    forall i | 0 <= i < |t|
      ensures TidyAt(t, i)
    {
      if i < LABEL_MAX {
        assert TidyAt(s, i) && t[i] == s[i];
        if i + 1 < LABEL_MAX { assert t[i + 1] == s[i + 1]; }
      }
    }
  }

  lemma TidyIsClean(s: string)
    requires Tidy(s)
    ensures Cleaned(s) == s
  {
    hide IsControl, IsWhitespace;
    forall i | 0 <= i < |s|
      ensures Cleaned(s)[i] == s[i]
    {
      assert TidyAt(s, i);
    }
  }

  lemma TidyNormalizes(s: string)
    requires Tidy(s)
    ensures Normalized(s) == s
  {
    hide Tidy, SplitWords, Cleaned;
    TidyIsClean(s);
    TidyIsNormal(s);
  }

  /// A label is tidy, at most 121 characters long, and its own label.
  lemma LabelIsAHandle(raw: string)
    ensures Tidy(Label(raw)) && |Label(raw)| <= LABEL_MAX + 1
    ensures Label(Label(raw)) == Label(raw)
  {
    hide Normalized, Tidy;
    NormalizedIsTidy(raw);
    var trimmed, handle := Normalized(raw), Label(raw);
    if |trimmed| > LABEL_MAX { CutIsTidy(trimmed); }
    TidyNormalizes(handle);
    if |trimmed| > LABEL_MAX { assert handle[..LABEL_MAX] == trimmed[..LABEL_MAX]; }
  }

  // ---------------------------------------------------------------- snapshots

  datatype Node = Node(reference: string, role: string, name: string)

  datatype PageSnapshot = PageSnapshot(generation: Word, nodes: seq<Node>)

  /// One entry of the driver's tree: its `role` and `name`, where they are strings.
  datatype Entry = Entry(role: Option<string>, name: Option<string>)

  datatype Tree = NotAnArray | Entries(entries: seq<Entry>)

  datatype Refusal = WireMismatch | InvalidArgs

  function Reference(index: nat): string {
    "e" + Decimal(if index < U64_MAX then index + 1 else U64_MAX)
  }

  predicate Shown(entry: Entry) {
    entry.role.Some? && entry.role.value in ROLES
  }

  /// The nodes that cross: the entries of a listed role, in order, numbered from one.
  function NodesOf(entries: seq<Entry>): seq<Node> {
    if entries == [] then []
    else
      var before, entry := NodesOf(entries[..|entries| - 1]), entries[|entries| - 1];
      if !Shown(entry) then before
      else
        var name := if entry.name.Some? then entry.name.value else "";
        before + [Node(Reference(|before|), entry.role.value, Label(name))]
  }

  method Read(generation: Word, tree: Tree) returns (snapshot: Result<PageSnapshot, Refusal>)
    ensures snapshot.Ok? <==> tree.Entries?
    ensures snapshot.Ok? ==> snapshot.value == PageSnapshot(generation, NodesOf(tree.entries))
    ensures snapshot.Err? ==> snapshot.error == WireMismatch
  {
    hide Label, Reference;
    if tree.NotAnArray? { return Err(WireMismatch); }
    var nodes: seq<Node> := [];
    for i := 0 to |tree.entries|
      invariant nodes == NodesOf(tree.entries[..i])
    {
      var entry := tree.entries[i];
      assert tree.entries[..i + 1][..i] == tree.entries[..i];
      if entry.role.None? { continue; }
      if entry.role.value !in ROLES { continue; }
      var name := Label(if entry.name.Some? then entry.name.value else "");
      nodes := nodes + [Node(Reference(|nodes|), entry.role.value, name)];
    }
    assert tree.entries[..|tree.entries|] == tree.entries;
    return Ok(PageSnapshot(generation, nodes));
  }

  function LineOf(node: Node): string {
    node.reference + " " + node.role + (if node.name != "" then " \"" + node.name + "\"" else "")
  }

  function TextOf(nodes: seq<Node>): string {
    if nodes == [] then "" else LineOf(nodes[0]) + "\n" + TextOf(nodes[1..])
  }

  lemma {:induction false} TextAppend(nodes: seq<Node>, node: Node)
    ensures TextOf(nodes + [node]) == TextOf(nodes) + (LineOf(node) + "\n")
  {
    hide LineOf;
    if nodes == [] {
      assert nodes + [node] == [node] && [node][1..] == [];
      assert TextOf([node]) == LineOf(node) + "\n" + "";
    } else {
      TextAppend(nodes[1..], node);
      assert (nodes + [node])[1..] == nodes[1..] + [node];
    }
  }

  method ToText(nodes: seq<Node>) returns (out: string)
    ensures out == TextOf(nodes)
  {
    out := "";
    for i := 0 to |nodes|
      invariant out == TextOf(nodes[..i])
    {
      hide TextOf;
      var node := nodes[i];
      assert nodes[..i + 1] == nodes[..i] + [node];
      TextAppend(nodes[..i], node);
      out := PushLine(out, node);
    }
    assert nodes[..|nodes|] == nodes;
  }

  method PushLine(was: string, node: Node) returns (out: string)
    ensures out == was + (LineOf(node) + "\n")
  {
    var line := node.reference;
    line := line + " ";
    line := line + node.role;
    if node.name != "" {
      ghost var start := line;
      line := line + " \"";
      line := line + node.name;
      line := line + "\"";
      assert line == start + (" \"" + node.name + "\"");
    }
    line := line + "\n";
    out := was + line;
  }

  /// The first node of this reference.
  function Resolve(nodes: seq<Node>, reference: string): Option<Node> {
    if nodes == [] then None
    else if nodes[0].reference == reference then Some(nodes[0])
    else Resolve(nodes[1..], reference)
  }

  /// One less than the numeral after the `e`, where there is a positive one.
  function IndexOf(reference: string): Result<Word, Refusal> {
    match StripPrefix(reference, "e")
    case None => Err(InvalidArgs)
    case Some(digits) =>
      match ParseWord(digits)
      case None => Err(InvalidArgs)
      case Some(ordinal) => if ordinal == 0 then Err(InvalidArgs) else Ok(ordinal - 1)
  }

  // --------------------------------------------------------------- invertibility

  /// What every node of a snapshot looks like.
  predicate Printable(node: Node) {
    && ' ' !in node.reference && '\n' !in node.reference
    && ' ' !in node.role && '\n' !in node.role
    && '\n' !in node.name
  }

  lemma RolesArePlain(role: string)
    requires role in ROLES
    ensures ' ' !in role && '\n' !in role
  {
  }

  lemma TidyHasNoNewline(s: string)
    requires Tidy(s)
    ensures '\n' !in s
  {
    forall i | 0 <= i < |s|
      ensures s[i] != '\n'
    {
      assert TidyAt(s, i);
    }
  }

  lemma ReferenceIsPlain(index: nat)
    ensures ' ' !in Reference(index) && '\n' !in Reference(index)
  {
    hide Decimal;
    assert !IsDigit(' ') && !IsDigit('\n');
  }

  lemma ShownIsPrintable(entry: Entry, index: nat, name: string)
    requires Shown(entry)
    ensures Printable(Node(Reference(index), entry.role.value, Label(name)))
  {
    hide Label, Reference, ROLES;
    LabelIsAHandle(name);
    TidyHasNoNewline(Label(name));
    RolesArePlain(entry.role.value);
    ReferenceIsPlain(index);
  }

  lemma {:induction false} NodesAreNumbered(entries: seq<Entry>)
    ensures forall i | 0 <= i < |NodesOf(entries)| ::
      NodesOf(entries)[i].reference == Reference(i) && Printable(NodesOf(entries)[i])
  {
    hide Label, Reference, Shown, Printable;
    if entries != [] {
      var front, entry := entries[..|entries| - 1], entries[|entries| - 1];
      NodesAreNumbered(front);
      if Shown(entry) {
        ShownIsPrintable(entry, |NodesOf(front)|, if entry.name.Some? then entry.name.value else "");
      }
    }
  }

  function ParseLine(line: string): Option<Node> {
    match SplitOnce(line, ' ')
    case None => None
    case Some((reference, tail)) =>
      match SplitOnce(tail, ' ')
      case None => Some(Node(reference, tail, ""))
      case Some((role, quoted)) =>
        if |quoted| < 2 || quoted[0] != '"' || quoted[|quoted| - 1] != '"' then None
        else Some(Node(reference, role, quoted[1..|quoted| - 1]))
  }

  /// Reads a snapshot's text back, line by line.
  function ParseText(text: string): Option<seq<Node>>
    decreases |text|
  {
    if text == [] then Some([])
    else
      match SplitOnce(text, '\n')
      case None => None
      case Some((line, rest)) =>
        match (ParseLine(line), ParseText(rest))
        case (Some(node), Some(nodes)) => Some([node] + nodes)
        case _ => None
  }

  lemma LineReads(node: Node)
    requires Printable(node)
    ensures ParseLine(LineOf(node)) == Some(node) && '\n' !in LineOf(node)
  {
    hide SplitOnce;
    var tail := node.role + (if node.name != "" then " \"" + node.name + "\"" else "");
    assert LineOf(node) == node.reference + [' '] + tail;
    SplitOnceJoined(node.reference, ' ', tail);
    if node.name != "" {
      var quoted := "\"" + node.name + "\"";
      assert tail == node.role + [' '] + quoted;
      SplitOnceJoined(node.role, ' ', quoted);
      assert quoted[1..|quoted| - 1] == node.name;
    } else {
      assert tail == node.role;
    }
  }

  lemma {:induction false} TextReads(nodes: seq<Node>)
    requires forall i | 0 <= i < |nodes| :: Printable(nodes[i])
    ensures ParseText(TextOf(nodes)) == Some(nodes)
  {
    hide ParseLine, LineOf, Printable, SplitOnce;
    if nodes != [] {
      TextReads(nodes[1..]);
      LineReads(nodes[0]);
      SplitOnceJoined(LineOf(nodes[0]), '\n', TextOf(nodes[1..]));
      assert [nodes[0]] + nodes[1..] == nodes;
    }
  }

  /// The snapshot's text is invertible: from what the model reads, every node is recovered, each
  /// from one line, whatever the page put in its labels.
  lemma SnapshotTextIsInvertible(entries: seq<Entry>)
    ensures ParseText(TextOf(NodesOf(entries))) == Some(NodesOf(entries))
  {
    hide NodesOf;
    NodesAreNumbered(entries);
    TextReads(NodesOf(entries));
  }

  lemma ReferenceInjective(i: nat, j: nat)
    requires i < U64_MAX && j < U64_MAX && Reference(i) == Reference(j)
    ensures i == j
  {
    hide Decimal;
    assert Reference(i)[1..] == Decimal(i + 1) && Reference(j)[1..] == Decimal(j + 1);
    DecimalInjective(i + 1, j + 1);
  }

  lemma {:induction false} ResolveFindsFirst(nodes: seq<Node>, reference: string)
    ensures Resolve(nodes, reference).None? <==> forall i | 0 <= i < |nodes| :: nodes[i].reference != reference
    ensures Resolve(nodes, reference).Some? ==>
      exists i | 0 <= i < |nodes| ::
        nodes[i] == Resolve(nodes, reference).value && nodes[i].reference == reference
  {
    if nodes != [] {
      ResolveFindsFirst(nodes[1..], reference);
      assert forall i | 0 <= i < |nodes[1..]| :: nodes[1..][i] == nodes[i + 1];
    }
  }

  /// Every reference a snapshot mints names its own node and no other: resolving it gives the node,
  /// reading it gives the node's position, and no two nodes share one.
  lemma ReferencesNameTheirNodes(entries: seq<Entry>, i: nat, j: nat)
    requires i < |NodesOf(entries)| && j < |NodesOf(entries)| && |NodesOf(entries)| <= U64_MAX
    ensures Resolve(NodesOf(entries), NodesOf(entries)[i].reference) == Some(NodesOf(entries)[i])
    ensures IndexOf(NodesOf(entries)[i].reference) == Ok(i)
    ensures NodesOf(entries)[i].reference == NodesOf(entries)[j].reference ==> i == j
  {
    hide NodesOf, Reference;
    NodesAreNumbered(entries);
    var nodes := NodesOf(entries);
    assert nodes[i].reference == Reference(i) && nodes[j].reference == Reference(j);
    if Reference(i) == Reference(j) { ReferenceInjective(i, j); }
    ResolveFindsFirst(nodes, Reference(i));
    var k :| 0 <= k < |nodes| && Resolve(nodes, Reference(i)) == Some(nodes[k]) && nodes[k].reference == Reference(i);
    ReferenceInjective(i, k);
    IndexReads(i);
  }

  lemma IndexReads(i: nat)
    requires i < U64_MAX
    ensures IndexOf(Reference(i)) == Ok(i)
  {
    hide Decimal, ParseWord;
    assert Reference(i)[1..] == Decimal(i + 1);
    ParseDecimal(i + 1);
  }

  /// A reference resolves exactly when it is that of some position of the snapshot.
  lemma UnmintedIsRefused(entries: seq<Entry>, reference: string)
    ensures Resolve(NodesOf(entries), reference).Some? <==>
      exists i | 0 <= i < |NodesOf(entries)| :: reference == Reference(i)
  {
    hide NodesOf, Reference;
    NodesAreNumbered(entries);
    ResolveFindsFirst(NodesOf(entries), reference);
    if i :| 0 <= i < |NodesOf(entries)| && reference == Reference(i) {
      assert NodesOf(entries)[i].reference == reference;
    }
  }
}
