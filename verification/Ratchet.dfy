/// The register of pins over a history of commits: what strikes do to the table the length gate reads,
/// when they can only tighten it, and what then holds of the files over the limit.
module Ratchet {
  import opened Text
  import opened Length
  import Register

  // -------------------------------------------------------------- the register

  const PREDATING_TABLE := "[file_length.predating]"

  predicate OpensTable(line: string) {
    StartsWith(Trim(line), "[")
  }

  predicate OpensPredating(line: string) {
    StartsWith(Trim(line), PREDATING_TABLE)
  }

  /// The lines that stand in the predating table, or those that do not; a line belongs to the nearest
  /// table opened above it. `inside` says whether the text before was in the predating table.
  function TableLines(text: seq<string>, inside: bool, wanted: bool): seq<string> {
    if text == [] then []
    else if OpensTable(text[0]) then TableLines(text[1..], OpensPredating(text[0]), wanted)
    else (if inside == wanted then [text[0]] else []) + TableLines(text[1..], inside, wanted)
  }

  function Predating(text: seq<string>): seq<string> {
    TableLines(text, false, true)
  }

  function Elsewhere(text: seq<string>): seq<string> {
    TableLines(text, false, false)
  }

  /// What TOML reads on a line of a table: a key and a line count, if the line assigns one.
  type PinReader = string -> Option<(string, Word)>

  /// TOML and the guard read the same subject and the same pin on every row.
  ghost predicate ReadsRows(read: PinReader) {
    forall line | Register.IsRow(line) ::
      var row := Register.ExemptionRow(line).value;
      read(line) == if row.pin.Some? then Some((row.subject, row.pin.value)) else None
  }

  function PinsOf(read: PinReader, lines: seq<string>): map<string, Word> {
    if lines == [] then map[]
    else
      match read(lines[0])
      case Some((rel, pin)) => PinsOf(read, lines[1..])[rel := pin]
      case None => PinsOf(read, lines[1..])
  }

  /// The pins the gate measures by: those of the predating table, whatever other tables hold.
  function Pins(read: PinReader, text: seq<string>): map<string, Word> {
    PinsOf(read, Predating(text))
  }

  /// The table reads: no two of its lines pin one file differently.
  ghost predicate OnePinEach(read: PinReader, text: seq<string>) {
    forall a, b | a in Predating(text) && b in Predating(text) ::
      read(a).Some? && read(b).Some? && read(a).value.0 == read(b).value.0 ==> read(a) == read(b)
  }

  lemma {:induction false} PinsAreStated(read: PinReader, lines: seq<string>)
    ensures forall rel | rel in PinsOf(read, lines) ::
      exists line | line in lines :: read(line) == Some((rel, PinsOf(read, lines)[rel]))
    ensures forall line | line in lines && read(line).Some? :: read(line).value.0 in PinsOf(read, lines)
  {
    if lines != [] {
      PinsAreStated(read, lines[1..]);
      assert lines == [lines[0]] + lines[1..];
    }
  }

  /// In a table that reads, a line pins what it says.
  lemma PinsAreRead(read: PinReader, text: seq<string>, line: string)
    requires OnePinEach(read, text) && line in Predating(text) && read(line).Some?
    ensures
      var (rel, pin) := read(line).value;
      rel in Pins(read, text) && Pins(read, text)[rel] == pin
  {
    hide Predating;
    PinsAreStated(read, Predating(text));
  }

  lemma TableCons(line: string, rest: seq<string>, inside: bool, wanted: bool)
    ensures TableLines([line] + rest, inside, wanted)
         == if OpensTable(line) then TableLines(rest, OpensPredating(line), wanted)
            else (if inside == wanted then [line] else []) + TableLines(rest, inside, wanted)
  {
    hide OpensTable, OpensPredating;
    assert ([line] + rest)[1..] == rest;
  }

  lemma RowOpensNoTable(line: string)
    requires Register.IsRow(line)
    ensures !OpensTable(line) && !OpensPredating(line)
  {
    assert Trim(line)[0] == '"';
  }

  /// A line is in one of the two parts of a text, unless it opens a table.
  lemma {:induction false} LinesStandSomewhere(text: seq<string>, inside: bool, line: string)
    requires line in text && !OpensTable(line)
    ensures line in TableLines(text, inside, true) || line in TableLines(text, inside, false)
  {
    hide OpensTable, OpensPredating;
    if line != text[0] {
      assert line in text[1..];
      LinesStandSomewhere(text[1..], if OpensTable(text[0]) then OpensPredating(text[0]) else inside, line);
    }
  }

  /// Only a text that opens the table has lines in it.
  lemma {:induction false} TableIsOpened(text: seq<string>, line: string)
    requires line in TableLines(text, false, true)
    ensures exists opener | opener in text :: OpensPredating(opener)
  {
    hide OpensTable, OpensPredating;
    assert text[0] in text;
    if !OpensTable(text[0]) || !OpensPredating(text[0]) {
      TableIsOpened(text[1..], line);
      var opener :| opener in text[1..] && OpensPredating(opener);
      assert opener in text;
    }
  }

  // ------------------------------------------------------ what a strike does to it

  /// The register is left alone, or changed by a diff the guard reads as a strike.
  ghost predicate StrikesOrKeeps(was: seq<string>, now: seq<string>) {
    was == now || exists edits :: StruckBy(was, now, edits)
  }

  ghost predicate StruckBy(was: seq<string>, now: seq<string>, edits: seq<Register.Edit>) {
    && Register.OldFile(edits) == was && Register.NewFile(edits) == now
    && Register.ReadableHeadings(edits) && Register.NothingMasked(edits)
    && Register.StrikeShaped(Register.Diff(edits))
  }

  ghost predicate OnlyRowsChange(edits: seq<Register.Edit>) {
    forall edit | edit in edits && (edit.Added? || edit.Removed?) :: Register.IsRow(edit.text)
  }

  lemma StrikesChangeRows(was: seq<string>, now: seq<string>, edits: seq<Register.Edit>)
    requires StruckBy(was, now, edits)
    ensures OnlyRowsChange(edits)
  {
    hide Register.IsRow, Register.OldFile, Register.NewFile, Register.StrikeShaped, Register.Masked;
    forall edit | edit in edits && (edit.Added? || edit.Removed?)
      ensures Register.IsRow(edit.text)
    {
      Register.ChangeIsJudged(edits, edit);
    }
  }

  ghost predicate AddedTo(edits: seq<Register.Edit>, line: string) {
    Register.Added(line) in edits
  }

  /// Whether the lines after this one stand in the predating table.
  function InsideAfter(line: string, inside: bool): bool {
    if OpensTable(line) then OpensPredating(line) else inside
  }

  /// Whether the lines after this edit stand in the predating table.
  function Inside(edit: Register.Edit, inside: bool): bool {
    if edit.Keep? || edit.Context? then InsideAfter(edit.text, inside) else inside
  }

  /// What one edit contributes to a part of the old text and of the new one.
  lemma EditLines(edit: Register.Edit, was: seq<string>, now: seq<string>, inside: bool, wanted: bool)
    requires edit.Added? || edit.Removed? ==> Register.IsRow(edit.text)
    ensures
      var here := if inside == wanted && !OpensTable(edit.text) then [edit.text] else [];
      && TableLines(Register.Before(edit) + was, inside, wanted)
         == (if Register.Before(edit) == [] then [] else here) + TableLines(was, Inside(edit, inside), wanted)
      && TableLines(Register.After(edit) + now, inside, wanted)
         == (if Register.After(edit) == [] then [] else here) + TableLines(now, Inside(edit, inside), wanted)
  {
    hide OpensTable, OpensPredating, Register.IsRow, TableLines;
    if edit.Added? || edit.Removed? { RowOpensNoTable(edit.text); }
    TableCons(edit.text, was, inside, wanted);
    TableCons(edit.text, now, inside, wanted);
    assert [] + was == was && [] + now == now;
  }

  /// Where only rows change, every line keeps its table: a part of the new text holds lines of the
  /// same part of the old one and added ones, and all of the old one's lines that are no rows.
  lemma {:induction false} LinesKeepTheirTables(
    edits: seq<Register.Edit>, inside: bool, wanted: bool, line: string)
    requires OnlyRowsChange(edits)
    ensures
      var before := TableLines(Register.OldFile(edits), inside, wanted);
      var after := TableLines(Register.NewFile(edits), inside, wanted);
      && (line in after ==> line in before || AddedTo(edits, line))
      && (line in before && !Register.IsRow(line) ==> line in after)
  {
    hide OpensTable, OpensPredating, Register.IsRow;
    if edits != [] {
      hide TableLines;
      var edit, rest := edits[0], edits[1..];
      assert edits == [edit] + rest;
      EditLines(edit, Register.OldFile(rest), Register.NewFile(rest), inside, wanted);
      LinesKeepTheirTables(rest, Inside(edit, inside), wanted, line);
    }
  }

  // ------------------------------------------------------------ when it tightens

  /// No new subject and no larger pin.
  ghost predicate Tightens(read: PinReader, was: seq<string>, now: seq<string>) {
    && Pins(read, now).Keys <= Pins(read, was).Keys
    && forall rel | rel in Pins(read, now) :: Pins(read, now)[rel] <= Pins(read, was)[rel]
  }

  /// A row that stands outside the predating table and could lend it a pin of `lent`.
  predicate Lends(text: seq<string>, line: string, subject: string, lent: Word)
    requires lent < U64_MAX
  {
    line in Elsewhere(text) && Register.ExemptionRow(line) == Some(Register.Row(subject, Some(lent + 1)))
  }

  /// A file's pin stands on a line of the table that no strike can touch.
  ghost predicate Fastened(read: PinReader, text: seq<string>, rel: string) {
    exists line | line in Predating(text) ::
      read(line).Some? && read(line).value.0 == rel && !Register.IsRow(line)
  }

  /// No row outside the predating table could move into it and loosen it: there is no such table, or
  /// every positive pin outside is at most one more than a pin inside for the same subject, or the
  /// pin inside cannot be touched.
  ghost predicate NothingToLend(read: PinReader, text: seq<string>) {
    || (forall line | line in text :: !OpensPredating(line))
    || forall line, subject, lent: Word | lent < U64_MAX && Lends(text, line, subject, lent) ::
      || (subject in Pins(read, text) && lent <= Pins(read, text)[subject])
      || Fastened(read, text, subject)
  }

  /// What stands behind a row that a strike added: a removed one, in the table or outside it.
  lemma AddedRowWasHeld(read: PinReader, was: seq<string>, now: seq<string>, edits: seq<Register.Edit>, line: string)
    requires StruckBy(was, now, edits) && AddedTo(edits, line)
    requires ReadsRows(read) && read(line).Some?
    ensures
      var (rel, pin) := read(line).value;
      exists other, larger: Word ::
        && pin < larger && Register.ExemptionRow(other) == Some(Register.Row(rel, Some(larger)))
        && (other in Predating(was) || other in Elsewhere(was))
  {
    hide Register.ExemptionRow, Register.StrikeShaped, TableLines, OpensTable, Register.OldFile, Register.NewFile;
    hide Register.NothingMasked, Register.ReadableHeadings, Register.Diff;
    StrikesChangeRows(was, now, edits);
    assert Register.IsRow(line);
    Register.AddedRowSupplants(edits, line);
    var other :| other in was && Register.IsRow(other)
      && Register.Shrinks(Register.ExemptionRow(other).value, Register.ExemptionRow(line).value);
    RowOpensNoTable(other);
    LinesStandSomewhere(was, false, other);
    var larger := Register.ExemptionRow(other).value.pin.value;
    assert Register.ExemptionRow(other) == Some(Register.Row(read(line).value.0, Some(larger)));
  }

  /// A text without the table's opening line has none after a strike either.
  lemma TableStaysUnopened(was: seq<string>, now: seq<string>, line: string)
    requires StrikesOrKeeps(was, now) && line in Predating(now)
    ensures exists opener | opener in was :: OpensPredating(opener)
  {
    hide OpensPredating, StruckBy, Register.IsRow, TableLines;
    TableIsOpened(now, line);
    var opener :| opener in now && OpensPredating(opener);
    if was != now {
      var edits :| StruckBy(was, now, edits);
      StrikesChangeRows(was, now, edits);
      if Register.IsRow(opener) { RowOpensNoTable(opener); }
      OtherLinesWereThere(was, now, edits, opener);
    }
  }

  lemma OtherLinesWereThere(was: seq<string>, now: seq<string>, edits: seq<Register.Edit>, line: string)
    requires StruckBy(was, now, edits) && OnlyRowsChange(edits)
    requires line in now && !Register.IsRow(line)
    ensures line in was
  {
    hide Register.IsRow, Register.OldFile, Register.NewFile, Register.StrikeShaped;
    hide Register.ReadableHeadings, Register.NothingMasked;
    Register.FileHolds(edits, line);
    var edit :| edit in edits && line in Register.After(edit);
    assert line in Register.Before(edit);
  }

  lemma PinOnlyTightens(read: PinReader, was: seq<string>, now: seq<string>, rel: string)
    requires ReadsRows(read) && OnePinEach(read, was) && OnePinEach(read, now)
    requires StrikesOrKeeps(was, now) && NothingToLend(read, was) && rel in Pins(read, now)
    ensures rel in Pins(read, was) && Pins(read, now)[rel] <= Pins(read, was)[rel]
  {
    hide Register.ExemptionRow, Register.StrikeShaped, TableLines, PinsOf, OpensPredating, StruckBy;
    PinsAreStated(read, Predating(now));
    var pin := Pins(read, now)[rel];
    var line :| line in Predating(now) && read(line) == Some((rel, pin));
    if line in Predating(was) {
      PinsAreRead(read, was, line);
    } else {
      var edits :| StruckBy(was, now, edits);
      StruckPin(read, was, now, edits, line);
    }
  }

  lemma StruckPin(read: PinReader, was: seq<string>, now: seq<string>, edits: seq<Register.Edit>, line: string)
    requires ReadsRows(read) && OnePinEach(read, was) && OnePinEach(read, now)
    requires StruckBy(was, now, edits) && NothingToLend(read, was)
    requires line in Predating(now) && line !in Predating(was) && read(line).Some?
    ensures
      var (rel, pin) := read(line).value;
      rel in Pins(read, was) && pin <= Pins(read, was)[rel]
  {
    hide Register.ExemptionRow, Register.StrikeShaped, Register.OldFile, Register.NewFile;
    hide TableLines, PinsOf, OpensPredating;
    var (rel, pin) := read(line).value;
    StrikesChangeRows(was, now, edits);
    LinesKeepTheirTables(edits, false, true, line);
    AddedRowWasHeld(read, was, now, edits, line);
    var other, larger: Word :| pin < larger
      && Register.ExemptionRow(other) == Some(Register.Row(rel, Some(larger)))
      && (other in Predating(was) || other in Elsewhere(was));
    if other in Predating(was) {
      PinsAreRead(read, was, other);
    } else {
      TableStaysUnopened(was, now, line);
      assert Lends(was, other, rel, larger - 1);
      if Fastened(read, was, rel) {
        FastenedPinStays(read, was, now, edits, rel, line);
      }
    }
  }

  lemma FastenedPinStays(
    read: PinReader, was: seq<string>, now: seq<string>, edits: seq<Register.Edit>, rel: string, line: string)
    requires OnePinEach(read, was) && OnePinEach(read, now)
    requires StruckBy(was, now, edits) && Fastened(read, was, rel)
    requires line in Predating(now) && read(line).Some? && read(line).value.0 == rel
    ensures rel in Pins(read, was) && Pins(read, was)[rel] == read(line).value.1
  {
    hide Register.IsRow, Register.StrikeShaped, TableLines, PinsOf, Register.OldFile, Register.NewFile;
    var fast :| fast in Predating(was) && read(fast).Some? && read(fast).value.0 == rel && !Register.IsRow(fast);
    StrikesChangeRows(was, now, edits);
    LinesKeepTheirTables(edits, false, true, fast);
    assert fast in Predating(now) && read(fast) == read(line);
    PinsAreRead(read, was, fast);
  }

  // ----------------------------------------------------------- when it does not

  predicate PinsSubject(line: string, subject: string) {
    match Register.ExemptionRow(line)
    case Some(Row(other, Some(_))) => other == subject
    case _ => false
  }

  /// The diff that lends: it removes every row that pins the subject, in whatever table, and adds a
  /// row of this pin where the predating table opens.
  function Lending(text: seq<string>, subject: string, lent: Word): seq<Register.Edit> {
    if text == [] then []
    else LendingAt(text[0], subject, lent) + Lending(text[1..], subject, lent)
  }

  function LendingAt(line: string, subject: string, lent: Word): seq<Register.Edit> {
    if PinsSubject(line, subject) then [Register.Removed(line)]
    else if OpensPredating(line) then
      [Register.Keep(line), Register.Added(Register.PinLine(subject, lent))]
    else [Register.Keep(line)]
  }

  /// A diff of removed rows and of added rows for one subject is a strike where a removed row of that
  /// subject has a larger pin than each of the added ones.
  lemma RowsMakeAStrike(edits: seq<Register.Edit>, struck: Register.Edit, subject: string, larger: Word)
    requires struck in edits && struck.Removed?
    requires Register.ExemptionRow(struck.text) == Some(Register.Row(subject, Some(larger)))
    requires forall edit | edit in edits ::
      || edit.Keep?
      || (edit.Removed? && Register.IsRow(edit.text))
      || (edit.Added? && IsSmaller(edit.text, subject, larger))
    ensures StruckBy(Register.OldFile(edits), Register.NewFile(edits), edits)
  {
    hide Register.ExemptionRow, Register.IsHeader, Register.Masked, IsSmaller;
    forall edit | edit in edits
      ensures !Register.Masked(edit)
    {
      if Register.Masked(edit) {
        Register.MaskedMeansChanged(edit);
        Register.MaskedIsNoRow(edit);
        if edit.Added? { SmallerIsRow(edit.text, subject, larger); }
      }
    }
    Register.ShownSign(struck);
    Register.DiffShows(edits, Register.Shown(struck)[0]);
    assert Register.Shown(struck)[0] in Register.Shown(struck);
    forall line | line in Register.Diff(edits)
      ensures Register.Signed(line, '-') ==> Register.IsRow(line[1..])
      ensures Register.Signed(line, '+') ==> IsSmaller(line[1..], subject, larger)
    {
      Register.DiffShows(edits, line);
      var edit :| edit in edits && line in Register.Shown(edit);
      Register.ShownSign(edit);
    }
    forall line | line in Register.Diff(edits) && Register.Signed(line, '+')
      ensures Register.IsRow(line[1..])
      ensures Register.Shrinks(Register.ExemptionRow(struck.text).value, Register.ExemptionRow(line[1..]).value)
    {
      SmallerIsRow(line[1..], subject, larger);
    }
  }

  predicate IsSmaller(line: string, subject: string, larger: Word) {
    match Register.ExemptionRow(line)
    case Some(Row(other, Some(pin))) => other == subject && pin < larger
    case _ => false
  }

  lemma SmallerIsRow(line: string, subject: string, larger: Word)
    requires IsSmaller(line, subject, larger)
    ensures Register.IsRow(line)
    ensures Register.Shrinks(Register.Row(subject, Some(larger)), Register.ExemptionRow(line).value)
  {
    hide Register.ExemptionRow;
  }

  /// A row's subject can be spelled in a row again.
  lemma SubjectsSpellRows(line: string, subject: string, pin: Word, lent: Word)
    requires Register.ExemptionRow(line) == Some(Register.Row(subject, Some(pin)))
    ensures Register.NamesASourceItem(subject) && '"' !in subject
    ensures Register.ExemptionRow(Register.PinLine(subject, lent)) == Some(Register.Row(subject, Some(lent)))
  {
    assert Register.NamesASourceItem(subject) && '"' !in subject by {
      hide Register.NamesASourceItem, Trim, ParseWord;
    }
    hide Register.NamesASourceItem, Register.ExemptionRow, Register.PinLine;
    Register.PinLineReads(subject, lent);
  }

  lemma {:induction false} LendingEdits(text: seq<string>, subject: string, lent: Word, edit: Register.Edit)
    requires edit in Lending(text, subject, lent)
    ensures
      || edit.Keep?
      || (edit.Removed? && PinsSubject(edit.text, subject))
      || edit == Register.Added(Register.PinLine(subject, lent))
  {
    hide PinsSubject, OpensPredating, Register.PinLine;
    if edit !in LendingAt(text[0], subject, lent) { LendingEdits(text[1..], subject, lent, edit); }
  }

  lemma {:induction false} LendingRemoves(text: seq<string>, subject: string, lent: Word, line: string)
    requires line in text && PinsSubject(line, subject)
    ensures Register.Removed(line) in Lending(text, subject, lent)
  {
    hide PinsSubject, OpensPredating;
    if line != text[0] {
      assert line in text[1..];
      LendingRemoves(text[1..], subject, lent, line);
    }
  }

  lemma {:induction false} FilesAppend(front: seq<Register.Edit>, back: seq<Register.Edit>)
    ensures Register.OldFile(front + back) == Register.OldFile(front) + Register.OldFile(back)
    ensures Register.NewFile(front + back) == Register.NewFile(front) + Register.NewFile(back)
  {
    hide Register.OldFile, Register.NewFile, Register.Before, Register.After;
    if front == [] {
      assert front + back == back;
      NoEditsNoFiles();
    } else {
      var edit, rest := front[0], front[1..];
      FilesAppend(rest, back);
      assert front + back == [edit] + (rest + back) && front == [edit] + rest;
      FilesCons(edit, rest + back);
      FilesCons(edit, rest);
      Regrouped(Register.Before(edit), Register.OldFile(rest), Register.OldFile(back));
      Regrouped(Register.After(edit), Register.NewFile(rest), Register.NewFile(back));
    }
  }

  lemma NoEditsNoFiles()
    ensures Register.OldFile([]) == [] && Register.NewFile([]) == []
  {
  }

  lemma FilesCons(edit: Register.Edit, rest: seq<Register.Edit>)
    ensures Register.OldFile([edit] + rest) == Register.Before(edit) + Register.OldFile(rest)
    ensures Register.NewFile([edit] + rest) == Register.After(edit) + Register.NewFile(rest)
  {
    hide Register.Before, Register.After;
    assert ([edit] + rest)[1..] == rest;
  }

  lemma LendingFiles(line: string, subject: string, lent: Word)
    ensures Register.OldFile(LendingAt(line, subject, lent)) == [line]
    ensures Register.NewFile(LendingAt(line, subject, lent))
         == if PinsSubject(line, subject) then []
            else if OpensPredating(line) then [line, Register.PinLine(subject, lent)]
            else [line]
  {
    hide PinsSubject, OpensPredating, Register.PinLine;
    var edits := LendingAt(line, subject, lent);
    NoEditsNoFiles();
    if |edits| == 2 {
      assert edits[1..] == [edits[1]] && edits[1..][1..] == [];
    } else {
      assert edits[1..] == [];
    }
  }

  /// What the lending leaves of the text, line by line.
  function Lent(text: seq<string>, subject: string, lent: Word): seq<string> {
    Register.NewFile(Lending(text, subject, lent))
  }

  lemma LentStep(text: seq<string>, subject: string, lent: Word)
    requires text != []
    ensures Register.OldFile(Lending(text, subject, lent))
         == [text[0]] + Register.OldFile(Lending(text[1..], subject, lent))
    ensures Lent(text, subject, lent)
         == (if PinsSubject(text[0], subject) then []
             else if OpensPredating(text[0]) then [text[0], Register.PinLine(subject, lent)]
             else [text[0]])
            + Lent(text[1..], subject, lent)
  {
    hide PinsSubject, OpensPredating, Register.PinLine, LendingAt;
    FilesAppend(LendingAt(text[0], subject, lent), Lending(text[1..], subject, lent));
    LendingFiles(text[0], subject, lent);
  }

  lemma {:induction false} LendingStartsFrom(text: seq<string>, subject: string, lent: Word)
    ensures Register.OldFile(Lending(text, subject, lent)) == text
  {
    hide PinsSubject, OpensPredating, Register.PinLine, LendingAt;
    if text != [] {
      LentStep(text, subject, lent);
      LendingStartsFrom(text[1..], subject, lent);
    }
  }

  /// After the lending the table holds its old lines but those that pinned the subject, and the new
  /// row where there is a table at all.
  lemma {:induction false} LentTable(text: seq<string>, subject: string, lent: Word, inside: bool, line: string)
    requires Register.IsRow(Register.PinLine(subject, lent))
    ensures
      line in TableLines(Lent(text, subject, lent), inside, true) ==>
        line == Register.PinLine(subject, lent)
        || (line in TableLines(text, inside, true) && !PinsSubject(line, subject))
    ensures
      (exists opener | opener in text :: OpensPredating(opener)) ==>
        Register.PinLine(subject, lent) in TableLines(Lent(text, subject, lent), inside, true)
  {
    hide OpensTable, OpensPredating, PinsSubject, Register.PinLine, Register.IsRow, Lent;
    if text == [] {
      NothingLent(subject, lent);
    } else {
      hide TableLines;
      var first, rest := text[0], text[1..];
      assert text == [first] + rest;
      LentTable(rest, subject, lent, InsideAfter(first, inside), line);
      LentFirst(text, subject, lent, inside);
    }
  }

  /// What the first line and its lending contribute to the table, before and after.
  lemma LentFirst(text: seq<string>, subject: string, lent: Word, inside: bool)
    requires text != [] && Register.IsRow(Register.PinLine(subject, lent))
    ensures
      var first, rest, row := text[0], text[1..], Register.PinLine(subject, lent);
      var here := if inside && !OpensTable(first) then [first] else [];
      && (OpensPredating(first) ==> !PinsSubject(first, subject))
      && TableLines(text, inside, true) == here + TableLines(rest, InsideAfter(first, inside), true)
      && TableLines(Lent(text, subject, lent), inside, true)
         == (if PinsSubject(first, subject) then [] else if OpensPredating(first) then [row] else here)
            + TableLines(Lent(rest, subject, lent), InsideAfter(first, inside), true)
  {
    hide OpensTable, OpensPredating, PinsSubject, Register.PinLine, Register.IsRow, Lent, TableLines;
    var first, rest, row := text[0], text[1..], Register.PinLine(subject, lent);
    var after := Lent(rest, subject, lent);
    assert text == [first] + rest;
    LentStep(text, subject, lent);
    TableCons(first, rest, inside, true);
    if PinsSubject(first, subject) {
      SubjectPinsAreRows(first, subject);
      RowOpensNoTable(first);
      assert [] + after == after;
    } else if OpensPredating(first) {
      PredatingIsATable(first);
      OpenedTable(first, row, after, inside);
    } else {
      TableCons(first, after, inside, true);
    }
  }

  lemma OpenedTable(opener: string, row: string, rest: seq<string>, inside: bool)
    requires OpensTable(opener) && OpensPredating(opener) && Register.IsRow(row)
    ensures TableLines([opener, row] + rest, inside, true) == [row] + TableLines(rest, true, true)
  {
    hide OpensTable, OpensPredating, Register.IsRow, TableLines;
    RowOpensNoTable(row);
    assert [opener, row] + rest == [opener] + ([row] + rest);
    TableCons(opener, [row] + rest, inside, true);
    TableCons(row, rest, true, true);
  }

  lemma NothingLent(subject: string, lent: Word)
    ensures Lent([], subject, lent) == []
  {
  }

  lemma SubjectPinsAreRows(line: string, subject: string)
    requires PinsSubject(line, subject)
    ensures Register.IsRow(line)
  {
  }

  lemma PredatingIsATable(line: string)
    requires OpensPredating(line)
    ensures OpensTable(line)
  {
    assert Trim(line)[0] == '[';
  }

  /// Where something can be lent, a strike lends it: the table still reads, and pins the subject above
  /// what it did.
  lemma LendingLoosens(read: PinReader, was: seq<string>, line: string, subject: string, lent: Word)
    requires ReadsRows(read) && OnePinEach(read, was) && lent < U64_MAX
    requires Lends(was, line, subject, lent) && !Fastened(read, was, subject)
    requires exists opener | opener in was :: OpensPredating(opener)
    requires subject in Pins(read, was) ==> Pins(read, was)[subject] < lent
    ensures
      var now := Lent(was, subject, lent);
      OnePinEach(read, now) && StrikesOrKeeps(was, now) && !Tightens(read, was, now)
  {
    hide Register.ExemptionRow, TableLines, PinsOf, OpensPredating, Register.PinLine, Lending, StruckBy;
    var now, row := Lent(was, subject, lent), Register.PinLine(subject, lent);
    SubjectsSpellRows(line, subject, lent + 1, lent);
    LendingStrikes(was, line, subject, lent);
    assert read(row) == Some((subject, lent));
    LentTable(was, subject, lent, false, row);
    forall other | other in Predating(now) && other != row
      ensures other in Predating(was) && (read(other).Some? ==> read(other).value.0 != subject)
    {
      LentTable(was, subject, lent, false, other);
      assert read(other).Some? && !Register.IsRow(other) ==> read(other).value.0 != subject;
    }
    PinsAreRead(read, now, row);
  }

  lemma LendingStrikes(was: seq<string>, line: string, subject: string, lent: Word)
    requires lent < U64_MAX && Lends(was, line, subject, lent)
    ensures StrikesOrKeeps(was, Lent(was, subject, lent))
  {
    hide Register.ExemptionRow, Register.PinLine, Register.OldFile, Register.NewFile, StruckBy, TableLines, OpensTable;
    var edits := Lending(was, subject, lent);
    SubjectsSpellRows(line, subject, lent + 1, lent);
    PartsAreLines(was, false, false, line);
    LendingRemoves(was, subject, lent, line);
    forall edit | edit in edits
      ensures
        || edit.Keep?
        || (edit.Removed? && Register.IsRow(edit.text))
        || (edit.Added? && IsSmaller(edit.text, subject, lent + 1))
    {
      LendingEdits(was, subject, lent, edit);
      if edit.Removed? { SubjectPinsAreRows(edit.text, subject); }
    }
    RowsMakeAStrike(edits, Register.Removed(line), subject, lent + 1);
    LendingStartsFrom(was, subject, lent);
  }

  lemma {:induction false} PartsAreLines(text: seq<string>, inside: bool, wanted: bool, line: string)
    requires line in TableLines(text, inside, wanted)
    ensures line in text
  {
    hide OpensTable, OpensPredating;
    assert text == [text[0]] + text[1..];
    if OpensTable(text[0]) {
      PartsAreLines(text[1..], OpensPredating(text[0]), wanted, line);
    } else if line in TableLines(text[1..], inside, wanted) {
      PartsAreLines(text[1..], inside, wanted, line);
    }
  }

  /// Every strike of a text tightens its predating table exactly when no row outside the table could
  /// lend it a pin.
  lemma StrikesTightenIff(read: PinReader, was: seq<string>)
    requires ReadsRows(read) && OnePinEach(read, was)
    ensures
      (forall now | OnePinEach(read, now) && StrikesOrKeeps(was, now) :: Tightens(read, was, now))
      <==> NothingToLend(read, was)
  {
    hide ReadsRows, OnePinEach, StrikesOrKeeps, Pins, OpensPredating, Lends, Fastened;
    if NothingToLend(read, was) {
      forall now | OnePinEach(read, now) && StrikesOrKeeps(was, now)
        ensures Tightens(read, was, now)
      {
        hide NothingToLend;
        forall rel | rel in Pins(read, now)
          ensures rel in Pins(read, was) && Pins(read, now)[rel] <= Pins(read, was)[rel]
        {
          PinOnlyTightens(read, was, now, rel);
        }
      }
    } else {
      var line, subject, lent: Word :| lent < U64_MAX && Lends(was, line, subject, lent)
        && !(subject in Pins(read, was) && lent <= Pins(read, was)[subject]) && !Fastened(read, was, subject);
      LendingLoosens(read, was, line, subject, lent);
    }
  }

  /// A register whose pins all stand in the predating table has nothing to lend.
  lemma PinsInTheirTable(read: PinReader, text: seq<string>)
    requires forall line | line in Elsewhere(text) && Register.IsRow(line) ::
      Register.ExemptionRow(line).value.pin.None?
    ensures NothingToLend(read, text)
  {
    hide TableLines, Register.ExemptionRow;
  }

  // ---------------------------------------------------------------- histories

  /// One commit: the tree the gate measures and the register's text.
  datatype Commit = Commit(files: seq<Source>, text: seq<string>)

  /// The file limit is read from the lines of the register that are no rows.
  type LimitReader = seq<string> -> nat

  function LimitOf(commit: Commit, limit: LimitReader): nat {
    limit(Register.NonRows(commit.text))
  }

  /// A commit the length gate passes.
  ghost predicate CleanCommit(commit: Commit, read: PinReader, limit: LimitReader) {
    && DistinctNames(commit.files) && OnePinEach(read, commit.text)
    && Clean(commit.files, LimitOf(commit, limit), Pins(read, commit.text))
  }

  /// Clean commits, each changing the register by a strike or not at all.
  ghost predicate CleanHistory(commits: seq<Commit>, read: PinReader, limit: LimitReader) {
    && (forall i | 0 <= i < |commits| :: CleanCommit(commits[i], read, limit))
    && (forall i | 0 < i < |commits| :: StrikesOrKeeps(commits[i - 1].text, commits[i].text))
  }

  /// No commit of the history has anything to lend.
  ghost predicate Guarded(commits: seq<Commit>, read: PinReader) {
    forall i | 0 <= i < |commits| :: NothingToLend(read, commits[i].text)
  }

  /// A strike changes no line that is not a row, so the same limit is read.
  lemma StrikeKeepsTheLimit(was: seq<string>, now: seq<string>)
    requires StrikesOrKeeps(was, now)
    ensures Register.NonRows(now) == Register.NonRows(was)
  {
    if was != now {
      var edits :| StruckBy(was, now, edits);
      Register.OtherLinesUntouchedIff(edits);
    }
  }

  lemma {:induction false} RegisterOnlyTightens(
    commits: seq<Commit>, read: PinReader, limit: LimitReader, i: nat, j: nat)
    requires CleanHistory(commits, read, limit) && Guarded(commits, read) && ReadsRows(read)
    requires i <= j < |commits|
    ensures Tightens(read, commits[i].text, commits[j].text)
    ensures LimitOf(commits[j], limit) == LimitOf(commits[i], limit)
    decreases j
  {
    hide Pins, StrikesOrKeeps, OnePinEach, Clean, DistinctNames, NothingToLend, ReadsRows, Register.NonRows;
    if i < j {
      RegisterOnlyTightens(commits, read, limit, i, j - 1);
      assert CleanCommit(commits[j - 1], read, limit) && CleanCommit(commits[j], read, limit);
      StrikesTightenIff(read, commits[j - 1].text);
      StrikeKeepsTheLimit(commits[j - 1].text, commits[j].text);
    }
  }

  /// The ratchet: along any run of clean commits whose register edits are strikes and whose registers
  /// have nothing to lend, the files over the limit only become fewer, and none grows past the
  /// earliest pin it had.
  lemma OverLimitOnlyShrinks(commits: seq<Commit>, read: PinReader, limit: LimitReader, i: nat, j: nat)
    requires CleanHistory(commits, read, limit) && Guarded(commits, read) && ReadsRows(read)
    requires i <= j < |commits|
    ensures
      var earlier, now := commits[i], commits[j];
      var pins := Pins(read, earlier.text);
      && OverLimit(now.files, LimitOf(now, limit)) <= OverLimit(earlier.files, LimitOf(earlier, limit))
      && forall k | 0 <= k < |now.files| && !now.files[k].data && now.files[k].lines > LimitOf(now, limit) ::
           now.files[k].rel in pins && now.files[k].lines <= pins[now.files[k].rel]
  {
    hide Pins, StrikesOrKeeps, OnePinEach, ReadsRows, NothingToLend;
    assert CleanCommit(commits[i], read, limit) && CleanCommit(commits[j], read, limit);
    RegisterOnlyTightens(commits, read, limit, i, j);
    CleanIff(commits[i].files, LimitOf(commits[i], limit), Pins(read, commits[i].text));
    CleanIff(commits[j].files, LimitOf(commits[j], limit), Pins(read, commits[j].text));
    var now := commits[j];
    forall k | 0 <= k < |now.files| && !now.files[k].data && now.files[k].lines > LimitOf(now, limit)
      ensures now.files[k].rel in Pins(read, now.text) && now.files[k].lines <= Pins(read, now.text)[now.files[k].rel]
    {
      assert now.files[k].rel in OverLimit(now.files, LimitOf(now, limit));
    }
  }

  // ----------------------------------------------------------------- a parked pin

  const PARKED := "crates/a/src/y.rs"
  const OTHER_TABLE := "[boundary]"

  /// The file shrinks and its pin is struck into another table; then it grows, and the pin is struck
  /// back.
  function Parking(): seq<Commit> {
    [Commit([Source(PARKED, 900, false)], [PREDATING_TABLE, Register.PinLine(PARKED, 1000), OTHER_TABLE]),
     Commit([Source(PARKED, 300, false)], [PREDATING_TABLE, OTHER_TABLE, Register.PinLine(PARKED, 999)]),
     Commit([Source(PARKED, 998, false)], [PREDATING_TABLE, Register.PinLine(PARKED, 998), OTHER_TABLE])]
  }

  lemma ParkedReads(pin: Word)
    ensures Register.ExemptionRow(Register.PinLine(PARKED, pin)) == Some(Register.Row(PARKED, Some(pin)))
  {
    hide *;
    ParkedIsASourceItem();
    Register.PinLineReads(PARKED, pin);
  }

  lemma ParkedIsASourceItem()
    ensures Register.NamesASourceItem(PARKED) && '"' !in PARKED
  {
    assert Contains(PARKED, "/src/") by { assert "/src/" <= PARKED[8..]; }
    assert EndsWith(PARKED, ".rs") by { assert PARKED[|PARKED| - 3..] == ".rs"; }
  }

  lemma TablesOpen()
    ensures OpensTable(PREDATING_TABLE) && OpensPredating(PREDATING_TABLE)
    ensures OpensTable(OTHER_TABLE) && !OpensPredating(OTHER_TABLE)
  {
    TablesSpelled();
    BracketIsNoSpace();
    hide *;
    BracketedLine(PREDATING_TABLE);
    BracketedLine(OTHER_TABLE);
  }

  lemma BracketIsNoSpace()
    ensures !IsWhitespace('[') && !IsWhitespace(']')
  {
  }

  lemma TablesSpelled()
    ensures PREDATING_TABLE != "" && PREDATING_TABLE[0] == '[' && PREDATING_TABLE[|PREDATING_TABLE| - 1] == ']'
    ensures OTHER_TABLE != "" && OTHER_TABLE[0] == '[' && OTHER_TABLE[|OTHER_TABLE| - 1] == ']'
    ensures PREDATING_TABLE <= PREDATING_TABLE && !(PREDATING_TABLE <= OTHER_TABLE)
  {
    assert |PREDATING_TABLE| > |OTHER_TABLE|;
  }

  lemma BracketedLine(line: string)
    requires line != "" && line[0] == '[' && line[|line| - 1] == ']'
    requires !IsWhitespace('[') && !IsWhitespace(']')
    ensures OpensTable(line) && (OpensPredating(line) <==> PREDATING_TABLE <= line)
  {
    hide IsWhitespace, PREDATING_TABLE, Trim;
    TrimIsIdentity(line);
  }

  /// A row below the predating table's opening line is in it, and one below another's is not.
  lemma ThreeLines(opener: string, other: string, row: string)
    requires OpensTable(opener) && OpensPredating(opener) && OpensTable(other) && !OpensPredating(other)
    requires !OpensTable(row)
    ensures Predating([opener, row, other]) == [row]
    ensures Predating([opener, other, row]) == []
  {
    hide OpensTable, OpensPredating, TableLines;
    NoLinesInNothing();
    assert [opener, row, other] == [opener] + [row, other] && [row, other] == [row] + [other];
    assert [opener, other, row] == [opener] + [other, row] && [other, row] == [other] + [row];
    assert [other] == [other] + [] && [row] == [row] + [];
    TableCons(opener, [row, other], false, true);
    TableCons(row, [other], true, true);
    TableCons(other, [], true, true);
    TableCons(opener, [other, row], false, true);
    TableCons(other, [row], true, true);
    TableCons(row, [], false, true);
  }

  lemma NoLinesInNothing()
    ensures TableLines([], false, true) == [] && TableLines([], true, true) == []
  {
  }

  lemma PinsOfRow(read: PinReader, row: string, rel: string, pin: Word)
    requires read(row) == Some((rel, pin))
    ensures PinsOf(read, [row]) == map[rel := pin] && PinsOf(read, []) == map[]
  {
    assert [row][1..] == [];
  }

  lemma ParkedPins(read: PinReader, pin: Word)
    requires ReadsRows(read)
    ensures
      var row := Register.PinLine(PARKED, pin);
      var held, parked := [PREDATING_TABLE, row, OTHER_TABLE], [PREDATING_TABLE, OTHER_TABLE, row];
      && Pins(read, held) == map[PARKED := pin] && OnePinEach(read, held)
      && Pins(read, parked) == map[] && OnePinEach(read, parked)
  {
    var row := Register.PinLine(PARKED, pin);
    ParkedReads(pin);
    assert Register.IsRow(row) && read(row) == Some((PARKED, pin));
    RowOpensNoTable(row);
    TablesOpen();
    hide *;
    ThreeLines(PREDATING_TABLE, OTHER_TABLE, row);
    PinsOfRow(read, row, PARKED, pin);
    TablesRead(read, [PREDATING_TABLE, row, OTHER_TABLE], [row]);
    TablesRead(read, [PREDATING_TABLE, OTHER_TABLE, row], []);
  }

  lemma TablesRead(read: PinReader, text: seq<string>, lines: seq<string>)
    requires Predating(text) == lines && |lines| <= 1
    ensures Pins(read, text) == PinsOf(read, lines) && OnePinEach(read, text)
  {
    hide Predating, PinsOf;
  }

  lemma OneFileIsClean(lines: nat, pins: map<string, Word>)
    requires pins.Keys == if lines > 400 then {PARKED} else {}
    requires lines > 400 ==> lines <= pins[PARKED]
    ensures
      var files := [Source(PARKED, lines, false)];
      DistinctNames(files) && Clean(files, 400, pins)
      && OverLimit(files, 400) == (if lines > 400 then {PARKED} else {})
  {
    var files := [Source(PARKED, lines, false)];
    assert files[0].rel in MeasuredNames(files);
    if lines > 400 { assert files[0].rel in OverLimit(files, 400); }
  }

  lemma ParkingEdits(edits: seq<Register.Edit>, larger: Word, smaller: Word)
    requires smaller < larger
    requires forall edit | edit in edits ::
      || edit.Keep?
      || edit == Register.Removed(Register.PinLine(PARKED, larger))
      || edit == Register.Added(Register.PinLine(PARKED, smaller))
    requires Register.Removed(Register.PinLine(PARKED, larger)) in edits
    ensures StrikesOrKeeps(Register.OldFile(edits), Register.NewFile(edits))
  {
    ParkedReads(larger);
    ParkedReads(smaller);
    hide Register.ExemptionRow, Register.PinLine, StruckBy, PARKED;
    RowsMakeAStrike(edits, Register.Removed(Register.PinLine(PARKED, larger)), PARKED, larger);
  }

  /// The pin is struck out of the table, or back into it: removed from the one and added, smaller, to
  /// the other.
  lemma ParkingStrikes(larger: Word, smaller: Word)
    requires smaller < larger
    ensures
      var was, now := Register.PinLine(PARKED, larger), Register.PinLine(PARKED, smaller);
      && StrikesOrKeeps([PREDATING_TABLE, was, OTHER_TABLE], [PREDATING_TABLE, OTHER_TABLE, now])
      && StrikesOrKeeps([PREDATING_TABLE, OTHER_TABLE, was], [PREDATING_TABLE, now, OTHER_TABLE])
  {
    hide *;
    var was, now := Register.PinLine(PARKED, larger), Register.PinLine(PARKED, smaller);
    var opener, other := Register.Keep(PREDATING_TABLE), Register.Keep(OTHER_TABLE);
    ParkingEdits([opener, Register.Removed(was), other, Register.Added(now)], larger, smaller);
    ParkingEdits([opener, Register.Added(now), other, Register.Removed(was)], larger, smaller);
    RowMoves(PREDATING_TABLE, OTHER_TABLE, was, now);
  }

  lemma RowMoves(opener: string, other: string, was: string, now: string)
    ensures
      var edits := [Register.Keep(opener), Register.Removed(was), Register.Keep(other), Register.Added(now)];
      Register.OldFile(edits) == [opener, was, other] && Register.NewFile(edits) == [opener, other, now]
    ensures
      var edits := [Register.Keep(opener), Register.Added(now), Register.Keep(other), Register.Removed(was)];
      Register.OldFile(edits) == [opener, other, was] && Register.NewFile(edits) == [opener, now, other]
  {
    hide Register.OldFile, Register.NewFile;
    FourEdits(Register.Keep(opener), Register.Removed(was), Register.Keep(other), Register.Added(now));
    FourEdits(Register.Keep(opener), Register.Added(now), Register.Keep(other), Register.Removed(was));
  }

  lemma FourEdits(a: Register.Edit, b: Register.Edit, c: Register.Edit, d: Register.Edit)
    ensures Register.OldFile([a, b, c, d])
         == Register.Before(a) + Register.Before(b) + Register.Before(c) + Register.Before(d)
    ensures Register.NewFile([a, b, c, d])
         == Register.After(a) + Register.After(b) + Register.After(c) + Register.After(d)
  {
    hide Register.OldFile, Register.NewFile, Register.Before, Register.After;
    NoEditsNoFiles();
    assert [a, b, c, d] == [a] + ([b] + ([c] + ([d] + [])));
    FilesCons(a, [b] + ([c] + ([d] + [])));
    FilesCons(b, [c] + ([d] + []));
    FilesCons(c, [d] + []);
    FilesCons(d, []);
  }

  /// Three clean commits, two strikes: a file leaves the set over the limit and comes back.
  lemma ParkedPinReturns(read: PinReader)
    requires ReadsRows(read)
    ensures
      var commits := Parking();
      && CleanHistory(commits, read, _ => 400) && !Guarded(commits, read)
      && OverLimit(commits[0].files, 400) == {PARKED}
      && OverLimit(commits[1].files, 400) == {}
      && OverLimit(commits[2].files, 400) == {PARKED}
  {
    hide Register.PinLine, PREDATING_TABLE, OTHER_TABLE, StrikesOrKeeps, Register.NonRows, PARKED, ReadsRows;
    hide Pins, OnePinEach, Clean, DistinctNames, OverLimit, NothingToLend;
    var limit: LimitReader := _ => 400;
    ParkedPins(read, 1000);
    ParkedPins(read, 999);
    ParkedPins(read, 998);
    OneFileIsClean(900, map[PARKED := 1000]);
    OneFileIsClean(300, map[]);
    OneFileIsClean(998, map[PARKED := 998]);
    ParkingStrikes(1000, 999);
    ParkingStrikes(999, 998);
    var commits := Parking();
    assert CleanHistory(commits, read, limit);
    assert PARKED in OverLimit(commits[2].files, 400);
    if Guarded(commits, read) { OverLimitOnlyShrinks(commits, read, limit, 1, 2); }
  }
}
