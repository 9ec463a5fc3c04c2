/// Diffs of a register file: which lines are rows, which diffs have the shape of a strike, and what
/// an accepted diff can do to the file.
module Register {
  import opened Text

  /// A row's quoted subject, and the number it assigns, if any.
  datatype Row = Row(subject: string, pin: Option<Word>)

  predicate NamesASourceItem(subject: string) {
    && Contains(subject, "/src/")
    && (EndsWith(subject, ".rs") || Contains(subject, ".rs::"))
    && ' ' !in subject
  }

  function RowTail(subject: string, tail: string): Option<Row> {
    match StripPrefix(tail, "=")
    case Some(pin) =>
      (match ParseWord(Trim(pin))
       case Some(lines) => Some(Row(subject, Some(lines)))
       case None => None)
    case None =>
      match StripPrefix(tail, ",")
      case None => None
      case Some(rest) =>
        var after := TrimStart(rest);
        if after == "" || StartsWith(after, "#") then Some(Row(subject, None)) else None
  }

  /// The row on a line: a quoted source item followed by `=` and a number, or by a comma and nothing
  /// but a comment.
  function ExemptionRow(line: string): Option<Row> {
    match StripPrefix(Trim(line), "\"")
    case None => None
    case Some(rest) =>
      match SplitOnce(rest, '"')
      case None => None
      case Some((subject, tail)) =>
        if NamesASourceItem(subject) then RowTail(subject, Trim(tail)) else None
  }

  // ------------------------------------------------------- reading a diff

  predicate IsHeader(line: string) {
    StartsWith(line, "+++") || StartsWith(line, "---")
  }

  predicate Signed(line: string, sign: char) {
    !IsHeader(line) && line != [] && line[0] == sign
  }

  predicate Shrinks(was: Row, now: Row) {
    was.subject == now.subject && was.pin.Some? && now.pin.Some? && now.pin.value < was.pin.value
  }

  /// Every changed line is a row, at least one is removed, and to each added one there is a removed
  /// one of its subject with a larger pin.
  ghost predicate StrikeShaped(diff: seq<string>) {
    && (forall line | line in diff && (Signed(line, '+') || Signed(line, '-')) ::
          ExemptionRow(line[1..]).Some?)
    && (exists line | line in diff :: Signed(line, '-'))
    && (forall grew | grew in diff && Signed(grew, '+') ::
          exists shrank | shrank in diff && Signed(shrank, '-') ::
            Shrinks(ExemptionRow(shrank[1..]).value, ExemptionRow(grew[1..]).value))
  }

  method StrikesOnlyExemptions(diff: seq<string>) returns (strikes: bool)
    ensures strikes <==> StrikeShaped(diff)
  {
    hide ExemptionRow;
    var removed: seq<Row>, added: seq<Row> := [], [];
    for i := 0 to |diff|
      invariant forall line | line in diff[..i] && (Signed(line, '+') || Signed(line, '-')) ::
        ExemptionRow(line[1..]).Some?
      invariant forall line | line in diff[..i] && Signed(line, '+') :: ExemptionRow(line[1..]).value in added
      invariant forall line | line in diff[..i] && Signed(line, '-') :: ExemptionRow(line[1..]).value in removed
      invariant forall row | row in added ::
        exists line | line in diff[..i] && Signed(line, '+') :: ExemptionRow(line[1..]) == Some(row)
      invariant forall row | row in removed ::
        exists line | line in diff[..i] && Signed(line, '-') :: ExemptionRow(line[1..]) == Some(row)
    {
      var line := diff[i];
      assert diff[..i + 1] == diff[..i] + [line];
      if IsHeader(line) { continue; }
      if StartsWith(line, "+") {
        match ExemptionRow(line[1..])
        case Some(row) => added := added + [row];
        case None =>
          assert Signed(line, '+');
          return false;
      } else if StartsWith(line, "-") {
        match ExemptionRow(line[1..])
        case Some(row) => removed := removed + [row];
        case None =>
          assert Signed(line, '-');
          return false;
      }
    }
    assert diff[..|diff|] == diff;
    if removed == [] { return false; }
    assert removed[0] in removed;
    strikes := forall grew | grew in added :: exists shrank | shrank in removed :: Shrinks(shrank, grew);
  }

  // ------------------------------------------------ what the diff does to the file

  /// One line of an edit. `Keep` is unchanged and too far from a change to be shown.
  datatype Edit =
    | Keep(text: string)
    | Context(text: string)
    | Added(text: string)
    | Removed(text: string)
    | Heading(text: string)

  function Shown(edit: Edit): seq<string> {
    match edit
    case Keep(_) => []
    case Context(text) => [" " + text]
    case Added(text) => ["+" + text]
    case Removed(text) => ["-" + text]
    case Heading(text) => [text]
  }

  function Before(edit: Edit): seq<string> {
    if edit.Keep? || edit.Context? || edit.Removed? then [edit.text] else []
  }

  function After(edit: Edit): seq<string> {
    if edit.Keep? || edit.Context? || edit.Added? then [edit.text] else []
  }

  function Diff(edits: seq<Edit>): seq<string> {
    if edits == [] then [] else Shown(edits[0]) + Diff(edits[1..])
  }

  function OldFile(edits: seq<Edit>): seq<string> {
    if edits == [] then [] else Before(edits[0]) + OldFile(edits[1..])
  }

  function NewFile(edits: seq<Edit>): seq<string> {
    if edits == [] then [] else After(edits[0]) + NewFile(edits[1..])
  }

  /// A heading of the diff is a line of its own that no sign could be mistaken for.
  ghost predicate ReadableHeadings(edits: seq<Edit>) {
    forall edit | edit in edits && edit.Heading? ::
      IsHeader(edit.text) || edit.text == [] || (edit.text[0] != '+' && edit.text[0] != '-')
  }

  /// A changed line whose own text makes it look like a heading of the diff.
  predicate Masked(edit: Edit) {
    (edit.Added? && StartsWith(edit.text, "++")) || (edit.Removed? && StartsWith(edit.text, "--"))
  }

  ghost predicate NothingMasked(edits: seq<Edit>) {
    forall edit | edit in edits :: !Masked(edit)
  }

  predicate IsRow(line: string) {
    ExemptionRow(line).Some?
  }

  /// The lines that are no rows: the budgets, the comments, the headers.
  function NonRows(lines: seq<string>): seq<string> {
    if lines == [] then []
    else (if IsRow(lines[0]) then [] else [lines[0]]) + NonRows(lines[1..])
  }

  lemma {:induction false} DiffShows(edits: seq<Edit>, line: string)
    ensures line in Diff(edits) <==> exists edit | edit in edits :: line in Shown(edit)
  {
    if edits != [] {
      DiffShows(edits[1..], line);
      assert edits == [edits[0]] + edits[1..];
    }
  }

  lemma ShownSign(edit: Edit)
    requires edit.Added? || edit.Removed?
    ensures
      var line, sign := Shown(edit)[0], if edit.Added? then '+' else '-';
      && line[1..] == edit.text && line[0] == sign
      && (Signed(line, sign) <==> !Masked(edit))
  {
    var line, sign := Shown(edit)[0], if edit.Added? then '+' else '-';
    assert line == [sign] + edit.text && line[1..] == edit.text && line[0] == sign;
    SignedThrice('+', edit.text, sign);
    SignedThrice('-', edit.text, sign);
    assert ['+', '+', '+'] == "+++" && ['+', '+'] == "++";
    assert ['-', '-', '-'] == "---" && ['-', '-'] == "--";
  }

  /// A line that begins with a sign begins with three of a kind exactly if its text begins with two.
  lemma SignedThrice(c: char, text: string, sign: char)
    ensures [c, c, c] <= [sign] + text <==> sign == c && [c, c] <= text
  {
    var line := [sign] + text;
    if [c, c, c] <= line {
      assert line[0] == c && line[1] == text[0] == c && line[2] == text[1] == c;
    }
    if sign == c && [c, c] <= text {
      assert line[1] == text[0] == c && line[2] == text[1] == c;
    }
  }

  /// A changed line is judged exactly when nothing masks it.
  lemma ChangeIsJudged(edits: seq<Edit>, edit: Edit)
    requires StrikeShaped(Diff(edits)) && edit in edits && (edit.Added? || edit.Removed?) && !Masked(edit)
    ensures IsRow(edit.text)
  {
    hide ExemptionRow;
    ShownSign(edit);
    DiffShows(edits, Shown(edit)[0]);
    assert Shown(edit)[0] in Shown(edit);
  }

  /// A masked line is never a row.
  lemma MaskedIsNoRow(edit: Edit)
    requires Masked(edit)
    ensures !IsRow(edit.text)
  {
    var c := edit.text[0];
    assert c == '+' || c == '-';
    TrimKeepsFirst(edit.text);
  }

  lemma TrimKeepsFirst(text: string)
    requires text != [] && !IsWhitespace(text[0])
    ensures Trim(text) != [] && Trim(text)[0] == text[0]
  {
    assert TrimStartBy(text, IsWhitespace) == text;
    var rest := TrimEndBy(text, IsWhitespace);
    assert rest != [];
  }

  // ------------------------------------------------- an accepted diff cannot loosen

  /// The row of the new file is one the old file had, or a smaller pin for the same subject.
  predicate NoLooser(was: Row, now: Row) {
    was == now || Shrinks(was, now)
  }

  lemma {:induction false} FileHolds(edits: seq<Edit>, line: string)
    ensures line in OldFile(edits) <==> exists edit | edit in edits :: line in Before(edit)
    ensures line in NewFile(edits) <==> exists edit | edit in edits :: line in After(edit)
  {
    if edits != [] {
      FileHolds(edits[1..], line);
      assert edits == [edits[0]] + edits[1..];
    }
  }

  lemma AddedRowShrinks(edits: seq<Edit>, edit: Edit)
    requires ReadableHeadings(edits) && StrikeShaped(Diff(edits))
    requires edit in edits && edit.Added? && IsRow(edit.text)
    ensures exists other | other in edits && other.Removed? && IsRow(other.text) ::
      Shrinks(ExemptionRow(other.text).value, ExemptionRow(edit.text).value)
  {
    hide ExemptionRow, Shrinks, IsHeader, Masked;
    if Masked(edit) { MaskedIsNoRow(edit); }
    ShownSign(edit);
    var grew := Shown(edit)[0];
    DiffShows(edits, grew);
    var shrank :| shrank in Diff(edits) && Signed(shrank, '-')
      && Shrinks(ExemptionRow(shrank[1..]).value, ExemptionRow(grew[1..]).value);
    var other := RemovedBehind(edits, shrank);
  }

  /// A line of the diff that is judged as removed comes from an edit that removes it.
  lemma RemovedBehind(edits: seq<Edit>, line: string) returns (edit: Edit)
    requires ReadableHeadings(edits) && line in Diff(edits) && Signed(line, '-')
    ensures edit in edits && edit.Removed? && edit.text == line[1..]
  {
    DiffShows(edits, line);
    edit :| edit in edits && line in Shown(edit);
    assert edit.Removed?;
    ShownSign(edit);
  }

  /// The row that an added one supplants is one of the old file's.
  lemma AddedRowSupplants(edits: seq<Edit>, line: string)
    requires ReadableHeadings(edits) && StrikeShaped(Diff(edits))
    requires Added(line) in edits && IsRow(line)
    ensures exists was | was in OldFile(edits) && IsRow(was) ::
      Shrinks(ExemptionRow(was).value, ExemptionRow(line).value)
  {
    hide ExemptionRow, StrikeShaped, Shrinks;
    AddedRowShrinks(edits, Added(line));
    var other :| other in edits && other.Removed? && IsRow(other.text)
      && Shrinks(ExemptionRow(other.text).value, ExemptionRow(line).value);
    assert other.text in Before(other);
    FileHolds(edits, other.text);
  }

  /// Every row of the new file answers to a row of the old one for the same subject, no smaller.
  lemma AcceptedRowsOnlyShrink(edits: seq<Edit>, line: string)
    requires ReadableHeadings(edits) && StrikeShaped(Diff(edits))
    requires line in NewFile(edits) && IsRow(line)
    ensures exists was | was in OldFile(edits) && IsRow(was) ::
      NoLooser(ExemptionRow(was).value, ExemptionRow(line).value)
  {
    hide ExemptionRow, StrikeShaped, Shrinks;
    FileHolds(edits, line);
    var edit :| edit in edits && line in After(edit);
    if edit.Added? {
      AddedRowSupplants(edits, line);
    } else {
      assert line in Before(edit);
      FileHolds(edits, line);
    }
  }

  /// Some edit of an accepted diff removes a row; an equal row elsewhere in the file may remain.
  lemma AcceptedRemovesARow(edits: seq<Edit>)
    requires ReadableHeadings(edits) && StrikeShaped(Diff(edits))
    ensures exists edit | edit in edits :: edit.Removed? && IsRow(edit.text)
  {
    hide ExemptionRow;
    var line :| line in Diff(edits) && Signed(line, '-');
    var edit := RemovedBehind(edits, line);
  }

  /// An accepted diff leaves every other line of the file - the budget above all - as it was,
  /// exactly when no changed line is masked as a heading of the diff.
  lemma OtherLinesUntouchedIff(edits: seq<Edit>)
    requires ReadableHeadings(edits) && StrikeShaped(Diff(edits))
    ensures NonRows(OldFile(edits)) == NonRows(NewFile(edits)) <==> NothingMasked(edits)
  {
    forall edit | edit in edits && (edit.Added? || edit.Removed?) && !Masked(edit)
      ensures IsRow(edit.text)
    {
      ChangeIsJudged(edits, edit);
    }
    if NothingMasked(edits) {
      UnmaskedKeepsOthers(edits);
    } else {
      var edit :| edit in edits && Masked(edit);
      MaskedShows(edits, edit);
    }
  }

  ghost predicate ChangesAreRows(edits: seq<Edit>) {
    forall edit | edit in edits && (edit.Added? || edit.Removed?) && !Masked(edit) :: IsRow(edit.text)
  }

  lemma NonRowsOfNothing()
    ensures NonRows([]) == []
  {
  }

  lemma NonRowsCons(line: string, rest: seq<string>)
    ensures NonRows([line] + rest) == (if IsRow(line) then [] else [line]) + NonRows(rest)
  {
    hide IsRow;
    assert ([line] + rest)[1..] == rest;
  }

  lemma {:induction false} NonRowsAppend(front: seq<string>, back: seq<string>)
    ensures NonRows(front + back) == NonRows(front) + NonRows(back)
  {
    hide NonRows, IsRow;
    if front == [] {
      assert front + back == back;
      NonRowsOfNothing();
    } else {
      NonRowsAppend(front[1..], back);
      assert front + back == [front[0]] + (front[1..] + back) && front == [front[0]] + front[1..];
      NonRowsCons(front[0], front[1..] + back);
      NonRowsCons(front[0], front[1..]);
      var first := if IsRow(front[0]) then [] else [front[0]];
      Regrouped(first, NonRows(front[1..]), NonRows(back));
    }
  }

  lemma {:induction false} UnmaskedKeepsOthers(edits: seq<Edit>)
    requires ChangesAreRows(edits) && NothingMasked(edits)
    ensures NonRows(OldFile(edits)) == NonRows(NewFile(edits))
  {
    hide IsRow;
    if edits != [] {
      var rest := edits[1..];
      UnmaskedKeepsOthers(rest);
      NonRowsAppend(Before(edits[0]), OldFile(rest));
      NonRowsAppend(After(edits[0]), NewFile(rest));
      assert edits[0] in edits && !Masked(edits[0]);
    }
  }

  function Count(lines: seq<string>, prefix: string): nat {
    if lines == [] then 0
    else (if StartsWith(lines[0], prefix) then 1 else 0) + Count(lines[1..], prefix)
  }

  lemma {:induction false} CountAppend(front: seq<string>, back: seq<string>, prefix: string)
    ensures Count(front + back, prefix) == Count(front, prefix) + Count(back, prefix)
  {
    if front == [] {
      assert front + back == back;
    } else {
      CountAppend(front[1..], back, prefix);
      assert (front + back)[1..] == front[1..] + back;
    }
  }

  lemma CountOne(lines: seq<string>, prefix: string)
    requires |lines| <= 1
    ensures Count(lines, prefix) == if lines != [] && StartsWith(lines[0], prefix) then 1 else 0
  {
  }

  /// How one edit moves the numbers of `++` and `--` lines among the lines that are no rows.
  lemma EditCounts(edit: Edit)
    requires (edit.Added? || edit.Removed?) && !Masked(edit) ==> IsRow(edit.text)
    ensures
      var before, after := NonRows(Before(edit)), NonRows(After(edit));
      && Count(before, "++") + (if Masked(edit) && edit.Added? then 1 else 0) == Count(after, "++")
      && Count(after, "--") + (if Masked(edit) && edit.Removed? then 1 else 0) == Count(before, "--")
  {
    hide IsRow, NonRows, Count;
    if Masked(edit) { MaskedIsNoRow(edit); }
    var before, after := NonRows(Before(edit)), NonRows(After(edit));
    NonRowsOfNothing();
    NonRowsCons(edit.text, []);
    assert [edit.text] + [] == [edit.text];
    assert before == if Before(edit) == [] || IsRow(edit.text) then [] else [edit.text];
    assert after == if After(edit) == [] || IsRow(edit.text) then [] else [edit.text];
    CountOne(before, "++");
    CountOne(before, "--");
    CountOne(after, "++");
    CountOne(after, "--");
    if Masked(edit) { assert edit.text[0] == if edit.Added? then '+' else '-'; }
  }

  lemma {:induction false} MaskedCounts(edits: seq<Edit>)
    requires ChangesAreRows(edits)
    ensures
      var before, after := NonRows(OldFile(edits)), NonRows(NewFile(edits));
      && Count(before, "++") <= Count(after, "++") && Count(after, "--") <= Count(before, "--")
      && (Count(before, "++") == Count(after, "++") && Count(after, "--") == Count(before, "--")
          ==> NothingMasked(edits))
  {
    hide IsRow, Masked, Count, NonRows;
    if edits == [] {
    } else {
      var rest := edits[1..];
      MaskedCounts(rest);
      NonRowsAppend(Before(edits[0]), OldFile(rest));
      NonRowsAppend(After(edits[0]), NewFile(rest));
      var b, a := NonRows(Before(edits[0])), NonRows(After(edits[0]));
      CountAppend(b, NonRows(OldFile(rest)), "++");
      CountAppend(b, NonRows(OldFile(rest)), "--");
      CountAppend(a, NonRows(NewFile(rest)), "++");
      CountAppend(a, NonRows(NewFile(rest)), "--");
      assert edits[0] in edits;
      EditCounts(edits[0]);
      MaskedMeansChanged(edits[0]);
      assert edits == [edits[0]] + rest;
    }
  }

  lemma MaskedMeansChanged(edit: Edit)
    ensures Masked(edit) ==> edit.Added? || edit.Removed?
  {
  }

  lemma MaskedShows(edits: seq<Edit>, edit: Edit)
    requires ChangesAreRows(edits) && edit in edits && Masked(edit)
    ensures NonRows(OldFile(edits)) != NonRows(NewFile(edits))
  {
    MaskedCounts(edits);
  }

  // ------------------------------------------------------- rows as they are written

  /// How a file's pin is written in the register.
  function PinLine(subject: string, lines: Word): string {
    "\"" + subject + "\" = " + Decimal(lines)
  }

  lemma PinLineShape(subject: string, lines: Word)
    requires '"' !in subject
    ensures
      var line := PinLine(subject, lines);
      && Trim(line) == line && line == "\"" + (subject + ['"'] + (" = " + Decimal(lines)))
  {
    hide Decimal, Trim;
    var line, digits := PinLine(subject, lines), Decimal(lines);
    assert line[|line| - 1] == digits[|digits| - 1] && digits[|digits| - 1] in digits;
    TrimIsIdentity(line);
    assert line == "\"" + (subject + ['"'] + (" = " + digits));
  }

  lemma PinTailReads(subject: string, lines: Word)
    ensures RowTail(subject, Trim(" = " + Decimal(lines))) == Some(Row(subject, Some(lines)))
  {
    var digits := Decimal(lines);
    hide Decimal, ParseWord, TrimStartBy, TrimEndBy;
    var tail := " = " + digits;
    assert digits[0] in digits && digits[|digits| - 1] in digits;
    assert Trim(tail) == "= " + digits by { TrimLeadingSpace("= " + digits); assert tail == " " + ("= " + digits); }
    assert ("= " + digits)[1..] == " " + digits;
    TrimLeadingSpace(digits);
    ParseDecimal(lines);
  }

  /// A pin reads back as it was written.
  lemma PinLineReads(subject: string, lines: Word)
    requires NamesASourceItem(subject) && '"' !in subject
    ensures ExemptionRow(PinLine(subject, lines)) == Some(Row(subject, Some(lines)))
  {
    hide NamesASourceItem, Trim, PinLine, SplitOnce, RowTail, Decimal;
    PinLineShape(subject, lines);
    var rest := subject + ['"'] + (" = " + Decimal(lines));
    assert ("\"" + rest)[1..] == rest;
    SplitOnceJoined(subject, '"', " = " + Decimal(lines));
    PinTailReads(subject, lines);
  }

  function StruckAndMasked(subject: string, lines: Word): seq<Edit> {
    [Removed(PinLine(subject, lines)), Removed("-- budget")]
  }

  lemma StruckAndMaskedDiff(subject: string, lines: Word)
    ensures Diff(StruckAndMasked(subject, lines)) == ["-" + PinLine(subject, lines), "--- budget"]
  {
    hide PinLine;
    var edits := StruckAndMasked(subject, lines);
    assert edits[1..] == [Removed("-- budget")] && edits[1..][1..] == [];
    assert "-" + "-- budget" == "--- budget";
    assert Diff(edits[1..]) == ["--- budget"] + [];
  }

  lemma StruckPinIsSigned(subject: string, lines: Word)
    ensures
      var row := "-" + PinLine(subject, lines);
      row[1..] == PinLine(subject, lines) && Signed(row, '-') && !Signed(row, '+')
  {
    hide Decimal;
    var row := "-" + PinLine(subject, lines);
    assert row[0] == '-' && row[1] == '"' && row[1..] == PinLine(subject, lines);
  }

  lemma OneRemovedRowStrikes(diff: seq<string>)
    requires |diff| == 2 && Signed(diff[0], '-') && !Signed(diff[0], '+') && IsRow(diff[0][1..])
    requires IsHeader(diff[1])
    ensures StrikeShaped(diff)
  {
    hide ExemptionRow, IsHeader, Shrinks;
    assert diff[0] in diff;
  }

  lemma StruckAndMaskedStrikes(subject: string, lines: Word)
    requires NamesASourceItem(subject) && '"' !in subject
    ensures StrikeShaped(Diff(StruckAndMasked(subject, lines)))
  {
    assert IsHeader("--- budget") by { assert "--- budget"[..3] == "---"; }
    PinLineReads(subject, lines);
    hide ExemptionRow, PinLine, Diff, StruckAndMasked, IsHeader, NamesASourceItem, StrikeShaped, Signed;
    StruckAndMaskedDiff(subject, lines);
    StruckPinIsSigned(subject, lines);
    OneRemovedRowStrikes(Diff(StruckAndMasked(subject, lines)));
  }

  /// The hole a masked line leaves: beside one struck row, a line that begins with two dashes is
  /// taken out of the file and the diff still passes for a strike.
  lemma MaskedLineSlipsThrough(subject: string, lines: Word)
    requires NamesASourceItem(subject) && '"' !in subject
    ensures
      var edits := StruckAndMasked(subject, lines);
      && ReadableHeadings(edits) && StrikeShaped(Diff(edits))
      && NonRows(OldFile(edits)) != NonRows(NewFile(edits))
  {
    hide StrikeShaped, OldFile, NewFile, NonRows, Diff, PinLine, NamesASourceItem;
    var edits := StruckAndMasked(subject, lines);
    StruckAndMaskedStrikes(subject, lines);
    assert edits[1] in edits && Masked(edits[1]) by { assert "-- budget"[..2] == "--"; }
    OtherLinesUntouchedIff(edits);
  }
}
