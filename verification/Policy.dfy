/// A building's rules, evaluated from the text of its `BUILDING.md`, and where that file lives.
module Policy {
  import opened Text
  import opened Addresses

  const BUILDING_FILE := "BUILDING.md"
  const CONFIDENTIAL_KEY := "confidential:"
  const REVIEW_KEY := "review:"
  const WRITE_HEADING := "write domain"
  const EGRESS_HEADING := "egress"
  const READING_HEADING := "reading room"

  // -------------------------------------------------------------------- lines

  /// `str::lines`: a carriage return before the newline belongs to the line's end.
  function Lines(text: string): seq<string>
    decreases |text|
  {
    if text == [] then []
    else
      match SplitOnce(text, '\n')
      case None => [text]
      case Some((line, rest)) =>
        var stripped := StripSuffix(line, "\r");
        [if stripped.Some? then stripped.value else line] + Lines(rest)
  }

  predicate Decoration(c: char) {
    c in "#>`-* "
  }

  function Bare(line: string): string {
    TrimStartBy(Trim(line), Decoration)
  }

  predicate IsHeading(line: string) {
    StartsWith(Trim(line), "#")
  }

  predicate IsBullet(line: string) {
    StartsWith(Trim(line), "- ") || StartsWith(Trim(line), "* ")
  }

  function Unquoted(text: string): string {
    TrimMatches(Trim(text), '`')
  }

  function Value(text: string): string {
    Trim(Unquoted(text))
  }

  predicate Titled(heading: string, topic: string) {
    Contains(Lower(Trim(heading)), topic)
  }

  // --------------------------------------------------------- the nearest heading

  /// What a line is, under the heading that governs it.
  datatype Role =
    | Heading
    | ReadingEntry(entry: string)
    | EgressEntry(entry: string)
    | Review(value: string)
    | Confidential(value: string)
    | WritePrefix(prefix: string)
    | Prose

  predicate Under(heading: Option<string>, topic: string) {
    heading.Some? && Titled(heading.value, topic)
  }

  function RoleOf(heading: Option<string>, line: string): Role {
    if IsHeading(line) then Heading
    else if Under(heading, READING_HEADING) && IsBullet(line) then ReadingEntry(Value(Bare(line)))
    else if Under(heading, EGRESS_HEADING) && IsBullet(line) then EgressEntry(Value(Bare(line)))
    else
      match (StripPrefix(Bare(line), REVIEW_KEY), StripPrefix(Bare(line), CONFIDENTIAL_KEY))
      case (Some(rest), _) => Review(Value(rest))
      case (None, Some(rest)) => Confidential(Value(rest))
      case (None, None) =>
        if Under(heading, WRITE_HEADING) && IsBullet(line) && Parse(Unquoted(Bare(line))).Some?
        then WritePrefix(Unquoted(Bare(line)))
        else Prose
  }

  /// The heading a line stands under: the nearest one above it.
  function HeadingAbove(lines: seq<string>, i: nat): Option<string>
    requires i <= |lines|
  {
    if i == 0 then None
    else if IsHeading(lines[i - 1]) then Some(lines[i - 1])
    else HeadingAbove(lines, i - 1)
  }

  predicate NearestAbove(lines: seq<string>, i: nat, j: int)
    requires i <= |lines|
  {
    && 0 <= j < i && IsHeading(lines[j])
    && forall k | j < k < i :: !IsHeading(lines[k])
  }

  /// A line stands under exactly the nearest heading above it, and under none where there is none.
  lemma {:induction false} HeadingAboveIsNearest(lines: seq<string>, i: nat, heading: string)
    requires i <= |lines|
    ensures
      HeadingAbove(lines, i) == Some(heading)
      <==> exists j :: NearestAbove(lines, i, j) && lines[j] == heading
    ensures HeadingAbove(lines, i).None? <==> forall j | 0 <= j < i :: !IsHeading(lines[j])
  {
    hide IsHeading;
    if i > 0 {
      HeadingAboveIsNearest(lines, i - 1, heading);
      if IsHeading(lines[i - 1]) {
        assert NearestAbove(lines, i, i - 1);
        forall j | NearestAbove(lines, i, j)
          ensures j == i - 1
        {
        }
      } else {
        forall j
          ensures NearestAbove(lines, i, j) <==> NearestAbove(lines, i - 1, j)
        {
        }
      }
    }
  }

  function RoleAt(lines: seq<string>, i: nat): Role
    requires i < |lines|
  {
    RoleOf(HeadingAbove(lines, i), lines[i])
  }

  // ----------------------------------------------------------- the whole reading

  function ReadingOf(role: Role): Option<string> {
    if role.ReadingEntry? && role.entry != "" then Some(role.entry) else None
  }

  function EgressOf(role: Role): Option<string> {
    if role.EgressEntry? && role.entry != "" then Some(role.entry) else None
  }

  function PrefixOf(role: Role): Option<string> {
    if role.WritePrefix? then Some(role.prefix) else None
  }

  function ReviewOf(role: Role): Option<string> {
    if role.Review? then Some(role.value) else None
  }

  function ConfidentialOf(role: Role): Option<string> {
    if role.Confidential? then Some(role.value) else None
  }

  predicate IsSwitch(value: string) {
    value == "true" || value == "false"
  }

  /// A declaration of something other than a switch.
  predicate Misspelled(role: Role) {
    (role.Review? || role.Confidential?) && !IsSwitch(role.value)
  }

  /// What the first `n` lines list, in their order.
  function Listed(lines: seq<string>, n: nat, pick: Role -> Option<string>): seq<string>
    requires n <= |lines|
  {
    if n == 0 then []
    else
      match pick(RoleAt(lines, n - 1))
      case None => Listed(lines, n - 1, pick)
      case Some(entry) => Listed(lines, n - 1, pick) + [entry]
  }

  /// What the last of the first `n` lines that speaks of it says.
  function LastSaid(lines: seq<string>, n: nat, pick: Role -> Option<string>): Option<string>
    requires n <= |lines|
  {
    if n == 0 then None
    else if pick(RoleAt(lines, n - 1)).Some? then pick(RoleAt(lines, n - 1))
    else LastSaid(lines, n - 1, pick)
  }

  datatype Refusal =
    | NotASwitch(role: Role)
    | Undeclared
    | ConfidentialWithEgress(domains: nat)
    | ReachesOutside(prefix: string)
    | ReservedPrefix(prefix: string)
    | MovedFile
    | StorageFatal

  function FirstMisspelled(lines: seq<string>, i: nat): Option<Role>
    requires i <= |lines|
    decreases |lines| - i
  {
    if i == |lines| then None
    else if Misspelled(RoleAt(lines, i)) then Some(RoleAt(lines, i))
    else FirstMisspelled(lines, i + 1)
  }

  datatype Rules = Rules(
    addr: string,
    confidential: bool,
    writePrefixes: seq<string>,
    egress: set<string>,
    review: bool,
    readingRoom: seq<string>)

  /// The rules a text states.
  function RulesOf(addr: string, text: string): Result<Rules, Refusal> {
    RulesOfLines(addr, Lines(text))
  }

  function RulesOfLines(addr: string, lines: seq<string>): Result<Rules, Refusal> {
    match FirstMisspelled(lines, 0)
    case Some(role) => Err(NotASwitch(role))
    case None =>
      var domains := Listed(lines, |lines|, EgressOf);
      match LastSaid(lines, |lines|, ConfidentialOf)
      case None => Err(Undeclared)
      case Some(value) =>
        if value == "true" && domains != [] then Err(ConfidentialWithEgress(|domains|))
        else Ok(Rules(
          addr,
          value == "true",
          Listed(lines, |lines|, PrefixOf),
          Allowlist(domains),
          LastSaid(lines, |lines|, ReviewOf) == Some("true"),
          Listed(lines, |lines|, ReadingOf)))
  }

  // ------------------------------------------------------------------- evaluate

  /// What reading line `i` adds to everything the lines before it said.
  lemma LineAdds(lines: seq<string>, i: nat)
    requires i < |lines|
    ensures
      var role := RoleAt(lines, i);
      && (role.Heading? <==> IsHeading(lines[i]))
      && HeadingAbove(lines, i + 1) == (if role.Heading? then Some(lines[i]) else HeadingAbove(lines, i))
      && ListedNext(lines, i, PrefixOf) && ListedNext(lines, i, EgressOf) && ListedNext(lines, i, ReadingOf)
      && SaidNext(lines, i, ReviewOf) && SaidNext(lines, i, ConfidentialOf)
      && FirstMisspelled(lines, i)
         == (if Misspelled(role) then Some(role) else FirstMisspelled(lines, i + 1))
  {
    hide IsHeading, IsBullet, Bare, Unquoted, Value, Titled, Parse, StripPrefix, Misspelled;
  }

  predicate ListedNext(lines: seq<string>, i: nat, pick: Role -> Option<string>)
    requires i < |lines|
  {
    var said := pick(RoleAt(lines, i));
    Listed(lines, i + 1, pick)
    == Listed(lines, i, pick) + (if said.Some? then [said.value] else [])
  }

  predicate SaidNext(lines: seq<string>, i: nat, pick: Role -> Option<string>)
    requires i < |lines|
  {
    var said := pick(RoleAt(lines, i));
    LastSaid(lines, i + 1, pick) == (if said.Some? then said else LastSaid(lines, i, pick))
  }

  /// The evaluator's own pass: flags for the open sections, lists that grow, settings that are
  /// overwritten, and an immediate refusal of a declaration that is not a switch.
  method Evaluate(addr: string, text: string) returns (rules: Result<Rules, Refusal>)
    ensures rules == RulesOf(addr, text)
  {
    hide Trim, Bare, IsHeading, IsBullet, Unquoted, Value, Titled, Parse, Lines, Allowlist;
    hide StripPrefix, HeadingAbove, Listed, LastSaid, FirstMisspelled;
    var confidential: Option<bool> := None;
    var review := false;
    var writePrefixes: seq<string>, egressEntries: seq<string>, readingRoom: seq<string> := [], [], [];
    var inWrite, inEgress, inReading := false, false, false;
    var lines := Lines(text);
    NothingRead(lines);
    for i := 0 to |lines|
      invariant inWrite == Under(HeadingAbove(lines, i), WRITE_HEADING)
      invariant inEgress == Under(HeadingAbove(lines, i), EGRESS_HEADING)
      invariant inReading == Under(HeadingAbove(lines, i), READING_HEADING)
      invariant writePrefixes == Listed(lines, i, PrefixOf)
      invariant egressEntries == Listed(lines, i, EgressOf)
      invariant readingRoom == Listed(lines, i, ReadingOf)
      invariant review == (LastSaid(lines, i, ReviewOf) == Some("true"))
      invariant Declared(confidential, LastSaid(lines, i, ConfidentialOf))
      invariant FirstMisspelled(lines, 0) == FirstMisspelled(lines, i)
    {
      var line := lines[i];
      LineAdds(lines, i);
      if IsHeading(line) {
        inWrite, inEgress, inReading :=
          Titled(line, WRITE_HEADING), Titled(line, EGRESS_HEADING), Titled(line, READING_HEADING);
        continue;
      }
      if inReading && IsBullet(line) {
        var entry := Value(Bare(line));
        if entry != "" { readingRoom := readingRoom + [entry]; }
        continue;
      }
      if inEgress && IsBullet(line) {
        var entry := Value(Bare(line));
        if entry != "" { egressEntries := egressEntries + [entry]; }
        continue;
      }
      var rest := StripPrefix(Bare(line), REVIEW_KEY);
      if rest.Some? {
        var value := Value(rest.value);
        if !IsSwitch(value) { return Err(NotASwitch(Review(value))); }
        review := value == "true";
        continue;
      }
      rest := StripPrefix(Bare(line), CONFIDENTIAL_KEY);
      if rest.Some? {
        var value := Value(rest.value);
        if !IsSwitch(value) { return Err(NotASwitch(Confidential(value))); }
        confidential := Some(value == "true");
        continue;
      }
      if inWrite && IsBullet(line) {
        var prefix := Parse(Unquoted(Bare(line)));
        if prefix.Some? { writePrefixes := writePrefixes + [prefix.value]; }
      }
    }
    assert FirstMisspelled(lines, |lines|).None? by { hide *; NothingMisspelled(lines); }
    if confidential.None? { return Err(Undeclared); }
    if confidential.value && egressEntries != [] {
      return Err(ConfidentialWithEgress(|egressEntries|));
    }
    return Ok(Rules(
      addr, confidential.value, writePrefixes, Allowlist(egressEntries), review, readingRoom));
  }

  lemma NothingRead(lines: seq<string>)
    ensures HeadingAbove(lines, 0).None?
    ensures Listed(lines, 0, PrefixOf) == Listed(lines, 0, EgressOf) == Listed(lines, 0, ReadingOf) == []
    ensures LastSaid(lines, 0, ReviewOf).None? && LastSaid(lines, 0, ConfidentialOf).None?
  {
  }

  lemma NothingMisspelled(lines: seq<string>)
    ensures FirstMisspelled(lines, |lines|).None?
  {
  }

  predicate Declared(confidential: Option<bool>, said: Option<string>) {
    match said
    case None => confidential.None?
    case Some(value) => IsSwitch(value) && confidential == Some(value == "true")
  }

  // --------------------------------------------------------------------- egress

  function Normalized(entry: string): string {
    Lower(TrimStartBy(Trim(entry), c => c == '.'))
  }

  /// The rules a list of domains comes to: normalised, sorted and without repetition, so a set.
  function Allowlist(entries: seq<string>): set<string> {
    set entry | entry in entries && Normalized(entry) != "" :: Normalized(entry)
  }

  /// Whether the host, without trailing dots and case, equals an entry or ends in a dot and an entry.
  predicate Admits(allowed: set<string>, host: string) {
    var name := Lower(TrimEndBy(host, c => c == '.'));
    exists domain | domain in allowed ::
      name == domain || (EndsWith(name, domain) && EndsWith(name[..|name| - |domain|], "."))
  }

  // ---------------------------------------------------------- what is accepted

  lemma {:induction false} LastSaidIsLast(lines: seq<string>, n: nat, pick: Role -> Option<string>)
    requires n <= |lines|
    ensures LastSaid(lines, n, pick).None? <==> forall j | 0 <= j < n :: pick(RoleAt(lines, j)).None?
    ensures LastSaid(lines, n, pick).Some? ==>
      exists j | 0 <= j < n ::
        pick(RoleAt(lines, j)) == LastSaid(lines, n, pick)
        && forall k | j < k < n :: pick(RoleAt(lines, k)).None?
  {
    hide RoleAt;
    if n > 0 { LastSaidIsLast(lines, n - 1, pick); }
  }

  lemma {:induction false} ListedNothing(lines: seq<string>, n: nat, pick: Role -> Option<string>)
    requires n <= |lines|
    ensures Listed(lines, n, pick) == [] <==> forall j | 0 <= j < n :: pick(RoleAt(lines, j)).None?
  {
    hide RoleAt;
    if n > 0 { ListedNothing(lines, n - 1, pick); }
  }

  lemma {:induction false} FirstMisspelledIsFirst(lines: seq<string>, i: nat)
    requires i <= |lines|
    ensures FirstMisspelled(lines, i).None? <==> forall j | i <= j < |lines| :: !Misspelled(RoleAt(lines, j))
    decreases |lines| - i
  {
    hide RoleAt, Misspelled;
    if i < |lines| { FirstMisspelledIsFirst(lines, i + 1); }
  }

  /// The lines from which a list takes an entry.
  function ListedAt(lines: seq<string>, n: nat, pick: Role -> Option<string>): seq<nat>
    requires n <= |lines|
  {
    if n == 0 then []
    else ListedAt(lines, n - 1, pick) + if pick(RoleAt(lines, n - 1)).Some? then [n - 1] else []
  }

  /// A list holds the entries of all lines that have one for it, each once and in the order of the
  /// lines.
  lemma {:induction false} ListedInOrder(lines: seq<string>, n: nat, pick: Role -> Option<string>)
    requires n <= |lines|
    ensures
      var at := ListedAt(lines, n, pick);
      && |at| == |Listed(lines, n, pick)|
      && (forall k | 0 <= k < |at| ::
        at[k] < n && pick(RoleAt(lines, at[k])) == Some(Listed(lines, n, pick)[k]))
      && (forall j, k | 0 <= j < k < |at| :: at[j] < at[k])
      && (forall i | 0 <= i < n :: i in at <==> pick(RoleAt(lines, i)).Some?)
  {
    hide RoleAt;
    if n > 0 { ListedInOrder(lines, n - 1, pick); }
  }

  /// The last line that declares whether the building is confidential.
  predicate LastDeclaration(lines: seq<string>, i: int, value: string) {
    && 0 <= i < |lines|
    && RoleAt(lines, i) == Confidential(value)
    && forall k | i < k < |lines| :: !RoleAt(lines, k).Confidential?
  }

  /// A text is accepted exactly when every declaration in it is a switch, one of them is about
  /// confidentiality, and the last such one is not `true` over a listed domain; and then the building
  /// is confidential exactly when that last one says so.
  lemma AcceptedIff(addr: string, lines: seq<string>)
    ensures
      RulesOfLines(addr, lines).Ok?
      <==>
      && (forall j | 0 <= j < |lines| :: !Misspelled(RoleAt(lines, j)))
      && (exists i, value :: LastDeclaration(lines, i, value))
      && ((exists i :: LastDeclaration(lines, i, "true"))
          ==> forall j | 0 <= j < |lines| :: EgressOf(RoleAt(lines, j)).None?)
    ensures
      RulesOfLines(addr, lines).Ok? ==>
        (RulesOfLines(addr, lines).value.confidential <==> exists i :: LastDeclaration(lines, i, "true"))
  {
    hide RoleAt, Listed, LastSaid, FirstMisspelled, Misspelled, Allowlist;
    FirstMisspelledIsFirst(lines, 0);
    LastSaidIsLast(lines, |lines|, ConfidentialOf);
    ListedNothing(lines, |lines|, EgressOf);
    var said := LastSaid(lines, |lines|, ConfidentialOf);
    if said.Some? {
      var j :| 0 <= j < |lines| && ConfidentialOf(RoleAt(lines, j)) == said
        && forall k | j < k < |lines| :: ConfidentialOf(RoleAt(lines, k)).None?;
      assert LastDeclaration(lines, j, said.value);
      forall i, value | LastDeclaration(lines, i, value)
        ensures i == j && value == said.value
      {
        assert ConfidentialOf(RoleAt(lines, i)) == Some(value);
      }
    } else {
      forall i, value
        ensures !LastDeclaration(lines, i, value)
      {
        if 0 <= i < |lines| { assert ConfidentialOf(RoleAt(lines, i)).None?; }
      }
    }
  }

  /// The list of an accepted confidential building admits no host.
  lemma ConfidentialReachesNothing(addr: string, text: string, host: string)
    requires RulesOf(addr, text).Ok? && RulesOf(addr, text).value.confidential
    ensures !Admits(RulesOf(addr, text).value.egress, host)
  {
    hide Listed, LastSaid, FirstMisspelled;
  }

  // ------------------------------------------------------------- prose is free

  function Without(lines: seq<string>, k: nat): seq<string>
    requires k < |lines|
  {
    lines[..k] + lines[k + 1..]
  }

  lemma {:induction false} HeadingsWithout(lines: seq<string>, k: nat, i: nat)
    requires k < |lines| && !IsHeading(lines[k]) && i < |lines|
    ensures HeadingAbove(Without(lines, k), i) == HeadingAbove(lines, if i <= k then i else i + 1)
  {
    hide IsHeading;
    if i > 0 { HeadingsWithout(lines, k, i - 1); }
  }

  lemma RolesWithout(lines: seq<string>, k: nat, i: nat)
    requires k < |lines| && RoleAt(lines, k).Prose? && i < |lines| - 1
    ensures RoleAt(Without(lines, k), i) == RoleAt(lines, if i < k then i else i + 1)
  {
    hide IsHeading, IsBullet, Bare, Value, Unquoted, Parse, StripPrefix, Titled;
    HeadingsWithout(lines, k, i);
  }

  lemma {:induction false} ListsWithout(
    lines: seq<string>, k: nat, n: nat, pick: Role -> Option<string>)
    requires k < |lines| && RoleAt(lines, k).Prose? && pick(Prose).None? && n < |lines|
    ensures Listed(Without(lines, k), n, pick) == Listed(lines, if n <= k then n else n + 1, pick)
    ensures LastSaid(Without(lines, k), n, pick) == LastSaid(lines, if n <= k then n else n + 1, pick)
  {
    hide RoleAt, Without;
    assert |Without(lines, k)| == |lines| - 1 by { hide RoleAt; WithoutLength(lines, k); }
    if n > 0 {
      ListsWithout(lines, k, n - 1, pick);
      RolesWithout(lines, k, n - 1);
    }
  }

  lemma LastLineProse(lines: seq<string>, pick: Role -> Option<string>)
    requires lines != [] && RoleAt(lines, |lines| - 1).Prose? && pick(Prose).None?
    ensures Listed(lines, |lines|, pick) == Listed(lines, |lines| - 1, pick)
    ensures LastSaid(lines, |lines|, pick) == LastSaid(lines, |lines| - 1, pick)
  {
    hide RoleAt;
  }

  lemma WholeListsWithout(lines: seq<string>, k: nat, pick: Role -> Option<string>)
    requires k < |lines| && RoleAt(lines, k).Prose? && pick(Prose).None?
    ensures Listed(Without(lines, k), |lines| - 1, pick) == Listed(lines, |lines|, pick)
    ensures LastSaid(Without(lines, k), |lines| - 1, pick) == LastSaid(lines, |lines|, pick)
  {
    hide RoleAt, Without, Listed, LastSaid;
    var n := |lines| - 1;
    WithoutLength(lines, k);
    ListsWithout(lines, k, n, pick);
    if n <= k { LastLineProse(lines, pick); }
  }

  lemma WithoutLength(lines: seq<string>, k: nat)
    requires k < |lines|
    ensures |Without(lines, k)| == |lines| - 1
  {
  }

  lemma {:induction false} MisspelledWithout(lines: seq<string>, k: nat, n: nat)
    requires k < |lines| && RoleAt(lines, k).Prose? && n < |lines|
    ensures FirstMisspelled(Without(lines, k), n) == FirstMisspelled(lines, if n < k then n else n + 1)
    decreases |lines| - n
  {
    hide RoleAt, Without;
    WithoutLength(lines, k);
    if n < |lines| - 1 {
      MisspelledWithout(lines, k, n + 1);
      RolesWithout(lines, k, n);
    }
  }

  /// A line that is neither a heading, a listed entry nor a declaration can be taken out of the file,
  /// or put anywhere into it, without changing a rule.
  lemma ProseIsFree(addr: string, lines: seq<string>, k: nat)
    requires k < |lines| && RoleAt(lines, k).Prose?
    ensures RulesOfLines(addr, Without(lines, k)) == RulesOfLines(addr, lines)
  {
    hide RoleAt, Without, Listed, LastSaid, Allowlist;
    WithoutLength(lines, k);
    MisspelledWithout(lines, k, 0);
    WholeListsWithout(lines, k, ReadingOf);
    WholeListsWithout(lines, k, EgressOf);
    WholeListsWithout(lines, k, PrefixOf);
    WholeListsWithout(lines, k, ReviewOf);
    WholeListsWithout(lines, k, ConfidentialOf);
  }

  // --------------------------------------------------------------- write domain

  /// The prefixes a run may write under: those the file names, or the building itself.
  function Prefixes(rules: Rules): (prefixes: seq<string>)
    ensures prefixes != []
  {
    if rules.writePrefixes == [] then [rules.addr] else rules.writePrefixes
  }

  predicate Contained(rules: Rules) {
    rules.confidential ==> forall k | 0 <= k < |rules.writePrefixes| :: IsWithin(rules.writePrefixes[k], rules.addr)
  }

  predicate Granted(rules: Rules) {
    Contained(rules) && forall k | 0 <= k < |Prefixes(rules)| :: !IsReserved(Prefixes(rules)[k])
  }

  /// A domain admits a target outside every reserved subtree and inside one of its prefixes.
  predicate MayWrite(domain: seq<string>, target: string) {
    !IsReserved(target) && exists k | 0 <= k < |domain| :: IsWithin(target, domain[k])
  }

  method WriteDomain(rules: Rules) returns (domain: Result<seq<string>, Refusal>)
    ensures domain.Ok? <==> Granted(rules)
    ensures domain.Ok? ==> domain.value == Prefixes(rules)
    ensures domain.Err? && !Contained(rules) ==>
      exists i | 0 <= i < |rules.writePrefixes| ::
        && domain == Err(ReachesOutside(rules.writePrefixes[i]))
        && !IsWithin(rules.writePrefixes[i], rules.addr)
        && forall k | 0 <= k < i :: IsWithin(rules.writePrefixes[k], rules.addr)
    ensures domain.Err? && Contained(rules) ==> RefusesFirstReserved(domain, Prefixes(rules))
  {
    hide IsWithin, IsReserved;
    var prefixes: seq<string> := [];
    for i := 0 to |rules.writePrefixes|
      invariant prefixes == rules.writePrefixes[..i]
      invariant rules.confidential ==> forall k | 0 <= k < i :: IsWithin(rules.writePrefixes[k], rules.addr)
    {
      var prefix := rules.writePrefixes[i];
      if rules.confidential && !IsWithin(prefix, rules.addr) {
        assert !IsWithin(rules.writePrefixes[i], rules.addr);
        return Err(ReachesOutside(prefix));
      }
      prefixes := prefixes + [prefix];
    }
    assert rules.writePrefixes[..|rules.writePrefixes|] == rules.writePrefixes;
    assert prefixes == rules.writePrefixes && Contained(rules);
    if prefixes == [] { prefixes := [rules.addr]; }
    assert prefixes == Prefixes(rules);
    domain := NewDomain(prefixes);
  }

  /// The refusal names the first of the prefixes that is reserved.
  predicate RefusesFirstReserved(domain: Result<seq<string>, Refusal>, prefixes: seq<string>) {
    exists i | 0 <= i < |prefixes| ::
      && domain == Err(ReservedPrefix(prefixes[i]))
      && IsReserved(prefixes[i])
      && forall k | 0 <= k < i :: !IsReserved(prefixes[k])
  }

  method NewDomain(prefixes: seq<string>) returns (domain: Result<seq<string>, Refusal>)
    ensures domain.Ok? <==> forall k | 0 <= k < |prefixes| :: !IsReserved(prefixes[k])
    ensures domain.Ok? ==> domain.value == prefixes
    ensures domain.Err? ==> RefusesFirstReserved(domain, prefixes)
  {
    hide IsReserved;
    for i := 0 to |prefixes|
      invariant forall k | 0 <= k < i :: !IsReserved(prefixes[k])
    {
      if IsReserved(prefixes[i]) { return Err(ReservedPrefix(prefixes[i])); }
    }
    return Ok(prefixes);
  }

  /// Whatever a confidential building's file says, the domain it is granted lies in the building: a
  /// run writes nothing outside it and nothing reserved inside it.
  lemma ConfidentialWritesStayInside(rules: Rules, target: string)
    requires rules.confidential && Granted(rules)
    ensures forall k | 0 <= k < |Prefixes(rules)| :: IsWithin(Prefixes(rules)[k], rules.addr)
    ensures MayWrite(Prefixes(rules), target) ==> IsWithin(target, rules.addr) && !IsReserved(target)
  {
    hide IsReserved;
    if MayWrite(Prefixes(rules), target) {
      var k :| 0 <= k < |Prefixes(rules)| && IsWithin(target, Prefixes(rules)[k]);
      WithinIsTransitive(target, Prefixes(rules)[k], rules.addr);
    }
  }

  // ---------------------------------------------------------------- where it lives

  function RulesPath(addr: string): string {
    addr + "/" + RESERVED_PREFIX + "/" + BUILDING_FILE
  }

  function LegacyPath(addr: string): string {
    addr + "/" + BUILDING_FILE
  }

  /// No domain, granted or not, admits the path of a rules file.
  lemma RulesAreOutOfReach(domain: seq<string>, addr: string)
    ensures !MayWrite(domain, RulesPath(addr))
  {
    hide Segments;
    SegmentsOfJoin(addr + "/" + RESERVED_PREFIX, BUILDING_FILE);
    SegmentsOfJoin(addr, RESERVED_PREFIX);
    ReservedIsReserved();
    var n := |Segments(addr)|;
    assert (Segments(addr) + [RESERVED_PREFIX])[n] == RESERVED_PREFIX;
    assert Segments(RulesPath(addr))[n] == RESERVED_PREFIX;
  }

  lemma ReservedIsReserved()
    ensures Segments(RESERVED_PREFIX) == [RESERVED_PREFIX]
  {
    OneSegment(RESERVED_PREFIX);
  }

  /// The files of a city. Reading an `unreadable` path and writing an `unwritable` one fail for a
  /// reason of the machine's own.
  datatype Files = Files(contents: map<string, string>, unreadable: set<string>, unwritable: set<string>)

  function LoadedFrom(files: Files, addr: string): Result<Rules, Refusal> {
    if RulesPath(addr) in files.contents then
      if RulesPath(addr) in files.unreadable then Err(StorageFatal)
      else RulesOf(addr, files.contents[RulesPath(addr)])
    else if LegacyPath(addr) in files.contents then Err(MovedFile)
    else Ok(Rules(addr, false, [], {}, false, []))
  }

  predicate Accepted(files: Files, addr: string, text: string) {
    RulesOf(addr, text).Ok? && RulesPath(addr) !in files.unwritable
  }

  class CityFiles {
    var files: Files

    constructor (files: Files)
      ensures this.files == files
    {
      this.files := files;
    }

    method Load(addr: string) returns (rules: Result<Rules, Refusal>)
      ensures rules == LoadedFrom(files, addr)
    {
      var path := RulesPath(addr);
      if path in files.contents {
        if path in files.unreadable { return Err(StorageFatal); }
        rules := Evaluate(addr, files.contents[path]);
      } else if LegacyPath(addr) in files.contents {
        rules := Err(MovedFile);
      } else {
        rules := Ok(Rules(addr, false, [], {}, false, []));
      }
    }

    /// Stores the text of an accepted proposal, and leaves the files alone for any other.
    method WriteRules(addr: string, text: string) returns (rules: Result<Rules, Refusal>)
      modifies this
      ensures rules.Ok? <==> Accepted(old(files), addr, text)
      ensures rules.Ok? ==> rules == RulesOf(addr, text)
      ensures rules.Err? && RulesOf(addr, text).Err? ==> rules == RulesOf(addr, text)
      ensures files == After(old(files), [Proposal(addr, text)])
    {
      rules := Evaluate(addr, text);
      assert [Proposal(addr, text)][..0] == [];
      if rules.Err? { return; }
      if RulesPath(addr) in files.unwritable { return Err(StorageFatal); }
      files := files.(contents := files.contents[RulesPath(addr) := text]);
    }
  }

  // -------------------------------------------------------------------- histories

  datatype Proposal = Proposal(addr: string, text: string)

  /// The files after a history of proposals.
  function After(files: Files, proposals: seq<Proposal>): (after: Files)
    ensures after.unreadable == files.unreadable && after.unwritable == files.unwritable
  {
    if proposals == [] then files
    else
      var before := After(files, proposals[..|proposals| - 1]);
      var last := proposals[|proposals| - 1];
      if Accepted(before, last.addr, last.text)
      then before.(contents := before.contents[RulesPath(last.addr) := last.text])
      else before
  }

  /// Proposal `i` is the last one accepted for this building.
  predicate LastAccepted(files: Files, proposals: seq<Proposal>, addr: string, i: int) {
    && 0 <= i < |proposals|
    && proposals[i].addr == addr && Accepted(files, addr, proposals[i].text)
    && forall k | i < k < |proposals| :: proposals[k].addr == addr ==> !Accepted(files, addr, proposals[k].text)
  }

  lemma PathsAreDistinct(one: string, two: string)
    requires RulesPath(one) == RulesPath(two)
    ensures one == two
  {
    var tail := "/" + RESERVED_PREFIX + "/" + BUILDING_FILE;
    assert RulesPath(one) == one + tail && RulesPath(two) == two + tail;
    assert |one| == |two|;
    assert RulesPath(one)[..|one|] == one && RulesPath(two)[..|two|] == two;
  }

  lemma {:induction false} StoredIsLastAccepted(files: Files, proposals: seq<Proposal>, addr: string, i: int)
    requires LastAccepted(files, proposals, addr, i)
    ensures RulesPath(addr) in After(files, proposals).contents
    ensures After(files, proposals).contents[RulesPath(addr)] == proposals[i].text
  {
    hide RulesOf, RulesPath;
    var n := |proposals| - 1;
    var last := proposals[n];
    if i < n {
      var front := proposals[..n];
      assert forall k | 0 <= k < n :: front[k] == proposals[k];
      StoredIsLastAccepted(files, front, addr, i);
      if Accepted(files, last.addr, last.text) && RulesPath(last.addr) == RulesPath(addr) {
        PathsAreDistinct(last.addr, addr);
      }
    }
  }

  /// After any history of proposals, for this building and for others, loading a building with an
  /// accepted proposal gives the rules of its last one.
  lemma LoadReturnsLastAccepted(files: Files, proposals: seq<Proposal>, addr: string, i: int)
    requires RulesPath(addr) !in files.unreadable
    requires LastAccepted(files, proposals, addr, i)
    ensures LoadedFrom(After(files, proposals), addr) == RulesOf(addr, proposals[i].text)
    ensures LoadedFrom(After(files, proposals), addr).Ok?
  {
    hide RulesOf, RulesPath;
    StoredIsLastAccepted(files, proposals, addr, i);
  }

  /// Without an accepted proposal of its own a building keeps its file.
  lemma {:induction false} RulesFileStays(files: Files, proposals: seq<Proposal>, addr: string)
    requires NoneAccepted(files, proposals, addr)
    ensures SameAt(After(files, proposals).contents, files.contents, RulesPath(addr))
  {
    hide RulesOf, RulesPath;
    if proposals != [] {
      var n := |proposals| - 1;
      var last := proposals[n];
      assert NoneAccepted(files, proposals[..n], addr);
      RulesFileStays(files, proposals[..n], addr);
      if RulesPath(last.addr) == RulesPath(addr) { PathsAreDistinct(last.addr, addr); }
    }
  }

  predicate SameAt(after: map<string, string>, before: map<string, string>, path: string) {
    (path in after <==> path in before) && (path in after ==> after[path] == before[path])
  }

  predicate NoneAccepted(files: Files, proposals: seq<Proposal>, addr: string) {
    forall k | 0 <= k < |proposals| :: proposals[k].addr == addr ==> !Accepted(files, addr, proposals[k].text)
  }

  /// Some accepted proposal wrote its rules to the place where this address once kept its own.
  ghost predicate Shadowed(files: Files, proposals: seq<Proposal>, addr: string) {
    exists k | 0 <= k < |proposals| :: Shadows(files, proposals[k], addr)
  }

  predicate Shadows(files: Files, proposal: Proposal, addr: string) {
    Accepted(files, proposal.addr, proposal.text) && RulesPath(proposal.addr) == LegacyPath(addr)
  }

  lemma {:induction false} LegacyFileAppears(files: Files, proposals: seq<Proposal>, addr: string)
    ensures
      LegacyPath(addr) in After(files, proposals).contents
      <==> LegacyPath(addr) in files.contents || Shadowed(files, proposals, addr)
  {
    hide Accepted, RulesPath, LegacyPath;
    if proposals != [] {
      var n := |proposals| - 1;
      var front, last := proposals[..n], proposals[n];
      LegacyFileAppears(files, front, addr);
      assert forall k | 0 <= k < n :: front[k] == proposals[k];
      if Shadowed(files, front, addr) {
        var k :| 0 <= k < n && Shadows(files, front[k], addr);
        assert Shadows(files, proposals[k], addr);
      }
      if Shadows(files, last, addr) { assert Shadows(files, proposals[n], addr); }
      AcceptanceStays(files, front, last.addr, last.text);
    }
  }

  lemma AcceptanceStays(files: Files, proposals: seq<Proposal>, addr: string, text: string)
    ensures Accepted(After(files, proposals), addr, text) <==> Accepted(files, addr, text)
  {
    hide RulesOf;
  }

  /// A building without an accepted proposal keeps the rules it had, unless it had no file at either
  /// place and an accepted proposal wrote one to the place it no longer reads.
  lemma UntouchedBuildingsKeepTheirRulesIff(files: Files, proposals: seq<Proposal>, addr: string)
    requires NoneAccepted(files, proposals, addr)
    ensures
      LoadedFrom(After(files, proposals), addr) == LoadedFrom(files, addr)
      <==>
      || RulesPath(addr) in files.contents || LegacyPath(addr) in files.contents
      || !Shadowed(files, proposals, addr)
  {
    hide RulesOf, RulesPath, LegacyPath, Shadowed, After;
    RulesFileStays(files, proposals, addr);
    LegacyFileAppears(files, proposals, addr);
  }

  /// Only a reserved address can be shadowed, and one below any building with an accepted proposal is.
  lemma OnlyReservedIsShadowed(files: Files, proposals: seq<Proposal>, addr: string)
    ensures Shadowed(files, proposals, addr) ==> IsReserved(addr)
    ensures forall k | 0 <= k < |proposals| && Accepted(files, proposals[k].addr, proposals[k].text) ::
      Shadowed(files, proposals, proposals[k].addr + "/" + RESERVED_PREFIX)
  {
    hide Accepted, IsReserved;
    if Shadowed(files, proposals, addr) {
      hide RulesPath, LegacyPath;
      var k :| 0 <= k < |proposals| && Shadows(files, proposals[k], addr);
      LegacyIsNoRulesPath(addr, proposals[k].addr);
    }
    forall k | 0 <= k < |proposals| && Accepted(files, proposals[k].addr, proposals[k].text)
      ensures Shadowed(files, proposals, proposals[k].addr + "/" + RESERVED_PREFIX)
    {
      assert Shadows(files, proposals[k], proposals[k].addr + "/" + RESERVED_PREFIX);
    }
  }

  const OPEN_TEXT := "confidential: false"

  lemma PlainLine(line: string)
    requires line != "" && !IsWhitespace(line[0]) && !IsWhitespace(line[|line| - 1])
    requires !Decoration(line[0]) && line[0] != '#'
    ensures Bare(line) == line && !IsHeading(line)
  {
    hide TrimStartBy, TrimEndBy, IsWhitespace, Decoration;
    TrimIsIdentity(line);
  }

  lemma PlainValue(word: string)
    requires word != "" && !IsWhitespace(word[0]) && !IsWhitespace(word[|word| - 1])
    requires word[0] != '`' && word[|word| - 1] != '`'
    ensures Value(" " + word) == word
  {
    hide Trim, TrimMatches, IsWhitespace;
    TrimLeadingSpace(word);
    TrimMatchesIsIdentity(word, '`');
    TrimIsIdentity(word);
  }

  /// A line of a key and one word after a space says of the key what the word says.
  lemma PlainDeclaration(line: string, word: string)
    requires line == CONFIDENTIAL_KEY + (" " + word)
    requires Bare(line) == line && !IsHeading(line) && Value(" " + word) == word
    ensures RoleOf(None, line) == Confidential(word)
  {
    hide *;
    KeysDiffer();
    assert line[0] == CONFIDENTIAL_KEY[0];
    StripsAKey(CONFIDENTIAL_KEY, " " + word);
    StripsNoOther(line, REVIEW_KEY);
    DeclaresByKey(line, " " + word);
  }

  lemma KeysDiffer()
    ensures REVIEW_KEY != "" && CONFIDENTIAL_KEY != "" && REVIEW_KEY[0] != CONFIDENTIAL_KEY[0]
  {
  }

  lemma StripsAKey(key: string, rest: string)
    ensures StripPrefix(key + rest, key) == Some(rest)
  {
  }

  lemma StripsNoOther(line: string, key: string)
    requires line != "" && key != "" && line[0] != key[0]
    ensures StripPrefix(line, key) == None
  {
  }

  lemma DeclaresByKey(line: string, rest: string)
    requires Bare(line) == line && !IsHeading(line)
    requires StripPrefix(line, REVIEW_KEY) == None && StripPrefix(line, CONFIDENTIAL_KEY) == Some(rest)
    ensures RoleOf(None, line) == Confidential(Value(rest))
  {
    hide StripPrefix, Bare, IsHeading, Value, CONFIDENTIAL_KEY, REVIEW_KEY;
  }

  lemma OpenTextSpelled()
    ensures OPEN_TEXT == CONFIDENTIAL_KEY + (" " + "false")
    ensures OPEN_TEXT != "" && OPEN_TEXT[0] == 'c' && OPEN_TEXT[|OPEN_TEXT| - 1] == 'e'
  {
  }

  lemma PlainLetters()
    ensures forall c | c in "cef" :: !IsWhitespace(c) && !Decoration(c) && c != '#' && c != '`'
  {
  }

  lemma OpenTextReads()
    ensures RoleOf(None, OPEN_TEXT) == Confidential("false")
  {
    hide *;
    var word := "false";
    assert word[0] == 'f' && word[|word| - 1] == 'e';
    assert 'c' in "cef" && 'e' in "cef" && 'f' in "cef";
    PlainLetters();
    OpenTextSpelled();
    PlainLine(OPEN_TEXT);
    PlainValue(word);
    PlainDeclaration(OPEN_TEXT, word);
  }

  lemma OneLine(text: string)
    requires text != "" && '\n' !in text
    ensures Lines(text) == [text]
  {
    hide SplitOnce;
  }

  /// A file of one line that declares a building not to be confidential is accepted.
  lemma OneDeclarationIsAccepted(addr: string, line: string)
    requires RoleOf(None, line) == Confidential("false")
    ensures RulesOfLines(addr, [line]).Ok?
  {
    hide RoleOf, Listed, LastSaid, FirstMisspelled, Allowlist;
    var lines := [line];
    OneDeclarationReads(line);
  }

  lemma OneDeclarationReads(line: string)
    requires RoleOf(None, line) == Confidential("false")
    ensures
      var lines := [line];
      && FirstMisspelled(lines, 0).None?
      && LastSaid(lines, 1, ConfidentialOf) == Some("false") && Listed(lines, 1, EgressOf) == []
  {
    hide RoleOf, Listed, LastSaid, FirstMisspelled, HeadingAbove, RoleAt;
    var lines := [line];
    NothingRead(lines);
    assert RoleAt(lines, 0) == Confidential("false") by { FirstRole(lines); }
    LineAdds(lines, 0);
    NothingMisspelled(lines);
  }

  lemma FirstRole(lines: seq<string>)
    requires lines != []
    ensures RoleAt(lines, 0) == RoleOf(None, lines[0])
  {
    hide RoleOf;
  }

  lemma OpenTextIsAccepted(addr: string)
    ensures RulesOf(addr, OPEN_TEXT).Ok?
  {
    assert '\n' !in OPEN_TEXT && OPEN_TEXT != "";
    hide OPEN_TEXT, RoleOf, RulesOfLines, Lines;
    OpenTextReads();
    OneLine(OPEN_TEXT);
    OneDeclarationIsAccepted(addr, OPEN_TEXT);
  }

  /// In a city without files, the rules of `lab` are written, and the reserved address below it, which
  /// nobody wrote to, is refused from then on.
  lemma ReservedAddressLosesItsRules()
    ensures
      var files := Files(map[], {}, {});
      var after := After(files, [Proposal("lab", OPEN_TEXT)]);
      && LoadedFrom(files, "lab/.sprawling").Ok?
      && LoadedFrom(after, "lab/.sprawling") == Err(MovedFile)
  {
    hide RulesOf, OPEN_TEXT;
    var files := Files(map[], {}, {});
    var proposals := [Proposal("lab", OPEN_TEXT)];
    OpenTextIsAccepted("lab");
    assert proposals[..0] == [];
    assert RulesPath("lab") == LegacyPath("lab/.sprawling");
    assert |RulesPath("lab/.sprawling")| > |RulesPath("lab")|;
  }

  lemma LegacyIsNoRulesPath(addr: string, other: string)
    requires RulesPath(other) == LegacyPath(addr)
    ensures IsReserved(addr)
  {
    var tail := "/" + BUILDING_FILE;
    var below := other + "/" + RESERVED_PREFIX;
    assert RulesPath(other) == below + tail && LegacyPath(addr) == addr + tail;
    assert |below| == |addr|;
    assert RulesPath(other)[..|addr|] == below && LegacyPath(addr)[..|addr|] == addr;
    SegmentsOfJoin(other, RESERVED_PREFIX);
    ReservedIsReserved();
  }
}
