# Verified models of the city's decision procedures

The program runs *cities*: addressed buildings and rooms, kept as directories, where language models
work under written rules. This project models the parts of it that decide something by an
algorithm, and proves what each promises. A method is proved against a function of its inputs (or
of its object's former state) or against a property stated outright, and the lemmas relate those
functions to an independent, declarative account: a set of firing minutes, a diff between two files, a nesting of delimiters, the standard
grammar of a string literal, a history of looks, a permutation of streams.

| module | what it models |
|---|---|
| `Text`, `Addresses` | characters, trimming and numerals; canonical addresses and the subtree test |
| `Schedule` | cadences in minutes since the epoch, and which of them are due in a window |
| `Lexer`, `Walk`, `Slots` | the gate that finds wording handed to a reader in RSX source: its lexer, its delimiter walk, and what is left of a literal without its slots |
| `Register`, `Length`, `Ratchet` | a register of exemptions and the diffs that may strike from it; the file-length gate; and what both hold over a history of commits |
| `MemLedger` | a hash-chained event ledger and its verification on replay |
| `Auth`, `Session` | the token comparison and the socket session's protocol |
| `Aggregate` | the merge of several cities' event streams |
| `Snapshot`, `Quote`, `DevLoop` | what a model sees of a page, how text becomes JavaScript, and when looking at a page stops |
| `Policy`, `ConfigLayers`, `Rooms` | a building's rules, the three configuration layers, and the rooms opened for sessions |

Where the code keeps state, the model does: `MemLedger.MemLedger`, `DevLoop.DevLoop`,
`Policy.CityFiles`, `ConfigLayers.ConfigFiles` and `Rooms.CityDirectory` are classes whose methods
update their fields, and the lexer, the walk, the slot stripper, the guard, the length gate, the
session, the evaluator and the escapers are loops over mutable variables.

## What turned out false, and exactly when it holds

- A weekly cadence is answered from a week start that a saturating subtraction moves to the epoch
  before the first Monday. `Schedule.WeeklyInventsAFiring` shows a firing that never happened, and
  `Schedule.WeeklyExactIff` says for which minutes of the week and which instants the answer is
  right for every window.
- The lexer's line numbers never run ahead, and are exact if and only if no earlier string escapes
  a newline and no skipped character literal spans one (`Lexer.LexedLines`); a text of each kind is
  `Lexer.EscapedNewlineIsLost` and `Lexer.NewlineLiteralIsLost`.
- An accepted strike leaves every other line of the register alone if and only if no changed line
  begins with `++` or `--`, which the diff reader takes for a heading
  (`Register.OtherLinesUntouchedIff`, `Register.MaskedLineSlipsThrough`).
- The set of files over the limit is meant only to shrink, and the guard's comment says that neither
  shape of strike can loosen anything. The guard reads a row by its line alone; the length gate reads
  one table. A pin can be struck into another table while its file is short and struck back when it
  has grown: `Ratchet.ParkedPinReturns` is such a history of three clean commits. Every strike of a
  register tightens the table if and only if there is no such table, or each positive pin outside it
  is at most one more than a pin inside for the same file, or the pin inside stands on a line no
  strike can touch (`Ratchet.StrikesTightenIff`). Where that holds at every commit the set does only
  shrink (`Ratchet.OverLimitOnlyShrinks`); it holds where all pins stand in their table
  (`Ratchet.PinsInTheirTable`).
- A string that opens with `r` and a quote has no escapes in Rust; the lexer reads it with escapes. It
  finds the same body and end if and only if an even number of backslashes stands before the next
  quote (`Lexer.HashlessRawReadsIff`, `Lexer.RawBackslashRunsOn`).
- A city's own events survive the merge in order if and only if its clock does not run back, and its
  numbers do not where the clock stands still (`Aggregate.CityStreamSurvivesIff`,
  `Aggregate.ClockRunningBackReorders`).
- Sandbox limits that were written read back if and only if none of their mounts is reserved: the
  writer takes such a mount and the reader then refuses the whole file
  (`ConfigLayers.SandboxRoundTripsIff`, `ConfigLayers.WrittenLimitsMayBeUnreadable`), which stops
  every run that reads it (`ConfigLayers.WrittenLimitsGovern`).
- The module comment of `crates/city/src/room.rs` says a listed room is exactly what `open` creates.
  An opened room is listed if and only if its session's name does not begin with a dot and is not
  `Archive` while that name is free (`Rooms.OpenedRoomIsListedIff`, `Rooms.DotSessionsAreUnlisted`).
- A building is refused with the words for 999 taken names also where a file stands at its address:
  creating the directories above a room answers that the file exists, and every attempt goes on to
  the next suffix. That answer is given exactly in these two cases (`Rooms.MakeDirsOutcome`,
  `Rooms.OpenTakesTheLeastFree`, `Rooms.FileBuildingIsRefused`).
- A building for which no proposal was accepted keeps its rules if and only if it has a file at
  either place or no accepted proposal of another wrote to the place it used to read; only reserved
  addresses can lose theirs so (`Policy.UntouchedBuildingsKeepTheirRulesIff`,
  `Policy.OnlyReservedIsShadowed`, `Policy.ReservedAddressLosesItsRules`).
- The development loop's documentation says a look after the loop ended is refused. The code
  refuses a look exactly when eight were taken (`DevLoop.DevLoop.Observe`): a loop that is refused
  has ended (`DevLoop.EveryLoopEnds`), but one that ended with looks to spare goes on
  (`DevLoop.EndingsAreNotRemembered`).
- In the ledger, the chain's head moves before the sequence number can run out: at the last
  number `append` refuses, keeps no line, and has moved the head to the hash of the line it did not
  keep. From a true head, an append leaves a true head if and only if it did not run out of numbers
  or that hash is the old head; the lines verify always (`MemLedger.MemLedger.Append`). Appends
  alone can fill a ledger to that point (`MemLedger.FullLedgerLosesItsHead`).

## Assumptions

- `char` is a Unicode scalar value. `char::is_alphabetic` and `char::is_alphanumeric` are the
  parameters `Alphabet` of the lexer; the line-number results assume a newline continues no name.
- Hashes are parameters. No hash is assumed free of collisions: the ledger's results read "equal,
  or here are two different lines with one hash".
- `MemLedger.Faithful`: canonical serialisation fails or yields a line that parses back as its
  record and whose envelope holds that record's version, number, predecessor's hash and `ig` mark.
- `Ratchet.ReadsRows`: on every line the guard reads as a row, TOML reads the same key and the same
  number; on its other lines TOML may read what it likes. A table begins at a line that begins with a
  bracket.
- Rendering a TOML document and reading it back is the identity, so a file holds a document or
  text that is not one.
- Reading, writing and creating fail where the file system's `unreadable`, `unwritable` or
  `denied` paths say so; a failed write leaves the file as it was.

## Model

| member | source | states |
|---|---|---|
| Addresses.JoinedSegments | crates/kernel/src/address.rs:44-77 | splitting an address into segments loses nothing |
| Addresses.WithinIsSegmentPrefix | crates/kernel/src/address.rs:79-86 | the byte-wise subtree test is exactly segment-wise prefix, both ways |
| Addresses.WithinIsTransitive | crates/kernel/src/address.rs:79-86 | a subtree of a subtree lies in the outer subtree |
| Addresses.ReservedIsHereditary | crates/kernel/src/address.rs:88-97 | nothing below a reserved directory escapes being reserved |
| Schedule.LastFiringIsLast | crates/city/src/schedule.rs:51-80 | the closed form's minute fires (or is zero) and no later minute up to now does |
| Schedule.ClosedFormIsExact | crates/city/src/schedule.rs:51-80 | a cadence counts as due in (after, now] if and only if some minute of the window fires |
| Schedule.DueIsExact | crates/city/src/schedule.rs:174-184 | `due` answers exactly the entries that fired in the window, none twice |
| Schedule.WeeklyInventsAFiring | crates/city/src/schedule.rs:67-79 | a window before the first Monday in which a weekly entry is due and nothing fired |
| Schedule.WeeklyExactIff | crates/city/src/schedule.rs:67-79 | a weekly answer is right for every window start if and only if now lies past the first Monday or outside the gap the saturation opens |
| Schedule.WindowsCompose | crates/city/src/schedule.rs:168-184 | due over a joined window if and only if due over one of its two parts |
| Schedule.OneFiringPerPeriod | crates/city/src/schedule.rs:168-184 | a window no longer than the period holds at most one firing |
| Schedule.FiringsSplit | crates/city/src/schedule.rs:168-184 | the firings of two adjoining windows add up to those of the joined one |
| Schedule.WindowOwesOneRun | crates/city/src/schedule.rs:168-184 | a window is due exactly when its count of firings is positive, however many were slept through |
| Schedule.ReportsOverARun | crates/city/src/schedule.rs:168-184 | over a run of polls: at most one report per firing, at least one if anything fired, and equal counts when no gap exceeds the period |
| Schedule.ReadCadencesAreAccepted | crates/city/src/schedule.rs:220-289 | every cadence the reader lets through lies in the ranges the closed form is exact for |
| Schedule.SpelledCadenceReads | crates/city/src/schedule.rs:220-289 | every accepted cadence has a spelling that reads back as itself |
| Schedule.ParseSchedule | crates/city/src/schedule.rs:134-147 | one entry a row in order, or the refusal of the first row that cannot be read |
| Lexer.LexSource | xtask/src/wording.rs:180-227 | the mutable loop ends on every text and yields the lexemes of the recursive reading |
| Lexer.ReadChunk | xtask/src/wording.rs:180-239 | one turn picks the reader the next characters call for and advances strictly |
| Lexer.ReadTo | xtask/src/wording.rs:242-251 | skips to the stop character or the end |
| Lexer.ReadBlockComment | xtask/src/wording.rs:253-267 | ends at the first closing mark and counts each newline up to it |
| Lexer.ReadCharLiteral | xtask/src/wording.rs:270-288 | tells a character literal from a lifetime and ends where the literal does |
| Lexer.ReadString | xtask/src/wording.rs:295-339 | tells which prefixes open a string, and reads it raw or ordinary |
| Lexer.ReadOrdinary | xtask/src/wording.rs:317-339 | an ordinary string's body, end, and the newlines it counts |
| Lexer.ReadRaw | xtask/src/wording.rs:341-359 | a raw string ends at the quote its hashes follow |
| Lexer.ReadName | xtask/src/wording.rs:361-372 | the longest run of name characters |
| Lexer.ChunkCountsLines | xtask/src/wording.rs:180-372 | no turn counts a newline that is not there, and each misses one exactly when it swallows one |
| Lexer.StartsAdvance | xtask/src/wording.rs:180-227 | lexemes start at strictly increasing positions inside the text |
| Lexer.LinesFrom | xtask/src/wording.rs:180-372 | from any position: the stated line is at most the true one, and equal if and only if nothing was lost between |
| Lexer.LexedLines | xtask/src/wording.rs:180-372 | over a whole text: each lexeme's line is at most one plus the newlines before it, exact if and only if no earlier string escapes a newline and no earlier character literal spans one |
| Lexer.EscapedNewlineIsLost | xtask/src/wording.rs:320-328 | a string with an escaped newline after which the stated line is one short |
| Lexer.NewlineLiteralIsLost | xtask/src/wording.rs:270-288 | a character literal with a newline after which the stated line is one short |
| Lexer.TurnsCoverTheText | xtask/src/wording.rs:180-227 | every character of a text is passed by some turn |
| Lexer.TurnsDoNotOverlap | xtask/src/wording.rs:180-227 | and by only one: no turn begins before an earlier one's end |
| Lexer.StartsAreTurns | xtask/src/wording.rs:180-227 | lexemes start exactly at the turns that leave a token |
| Lexer.NothingStartsInside | xtask/src/wording.rs:180-372 | no lexeme starts inside a comment, a string, a character literal or another lexeme |
| Lexer.HashlessRawReadsIff | xtask/src/wording.rs:295-339 | a literal of `r` and a quote is read as its grammar has it if and only if an even number of backslashes stands before the next quote |
| Lexer.RawBackslashRunsOn | xtask/src/wording.rs:295-339 | a raw string of one backslash that swallows the comma after it |
| Walk.HandedToAReader | xtask/src/wording.rs:411-442 | the mutable stack walk reports, in source order, what the stack at each token says |
| Walk.Step | xtask/src/wording.rs:456-488 | what a token pushes, pops and clears |
| Walk.StackNeverEmpty | xtask/src/wording.rs:411-488 | however unbalanced the source, a frame is always left |
| Walk.BalancedPairIsLocal | xtask/src/wording.rs:456-488 | a balanced pair leaves the whole stack as its opener found it |
| Walk.WalkRefinesPlaces | xtask/src/wording.rs:411-513 | every frame's flags are exactly what nesting and the item's first token say |
| Walk.ChainExtends | xtask/src/wording.rs:498-513 | a place is under `rsx!` exactly when its own opener follows it or an element brace links it to one that is |
| Walk.ReportedIff | xtask/src/wording.rs:411-513 | a literal is reported if and only if it has words of the view and stands, under an unbroken chain of element braces from an `rsx!`, as an item or as a spoken attribute's value |
| Walk.ArgumentsAreNotReported | xtask/src/wording.rs:411-488 | nothing directly inside parentheses or brackets is reported |
| Walk.ArgumentsNeedTheirOwnRsx | xtask/src/wording.rs:411-513 | at any depth inside a delimiter that is no brace, a reported literal has a brace after `rsx!` further in |
| Slots.WordsTheViewWrote | xtask/src/wording.rs:524-563 | the words, and none if and only if what is left has no two adjacent letters |
| Slots.StripSlots | xtask/src/wording.rs:524-550 | the loop over the character iterator computes the recursive stripping |
| Slots.ReadTurn | xtask/src/wording.rs:528-549 | what one turn takes from the iterator, how deep it then is and what it keeps |
| Slots.SkipEscape | xtask/src/wording.rs:530-538 | an escape takes its operand, and a braced one up to its closing brace |
| Slots.SlotBlindness | xtask/src/wording.rs:524-563 | replacing a slot's contents never changes the words, whatever the old and the new ones hold, as long as each is closed by the slot's own brace |
| Slots.BlandFillsASlot | xtask/src/wording.rs:524-550 | text free of braces and backslashes is closed by the slot's own brace |
| Slots.StripToTheClose | xtask/src/wording.rs:528-549 | inside a slot nothing is kept, at whatever depth the slot stands |
| Slots.PlainPrefixLands | xtask/src/wording.rs:524-550 | a prefix without escapes that does not end in an opening brace is enough for that |
| Slots.StripRendered | xtask/src/wording.rs:524-563 | of every literal spelled by the format grammar (text, slots, escapes, doubled braces in any order) exactly the plain pieces remain |
| Register.StrikesOnlyExemptions | xtask/src/guard.rs:188-216 | the two passes over the diff accept exactly the strike-shaped ones |
| Register.AcceptedRowsOnlyShrink | xtask/src/guard.rs:188-250 | every row of the new file has an old row for its subject with an equal or larger pin |
| Register.AddedRowSupplants | xtask/src/guard.rs:210-215 | an added row has an old row of its subject with a larger pin |
| Register.AcceptedRemovesARow | xtask/src/guard.rs:188-216 | an accepted diff removes at least one row |
| Register.OtherLinesUntouchedIff | xtask/src/guard.rs:188-216 | the lines that are no rows are unchanged if and only if no changed line is masked as a diff heading |
| Register.PinLineReads | xtask/src/guard.rs:220-250 | a pin spelled in the register reads back as its subject and length |
| Register.MaskedLineSlipsThrough | xtask/src/guard.rs:188-216 | a concrete accepted diff that also removes a line that is no row |
| Length.CheckFileLengths | xtask/src/length.rs:93-140 | the violations, source by source and then the stale pins in the order of their names; none exactly for a clean tree |
| Length.JudgeSources | xtask/src/length.rs:93-128 | the loop over files yields each file's own verdict and the set of names measured |
| Length.StaleRows | xtask/src/length.rs:129-140 | one violation for every pin on a file that was not measured, and no other, in the order of their names |
| Length.CleanIff | xtask/src/length.rs:93-140 | clean if and only if the register's domain is the set of measured files over the limit and each is within its pin |
| Ratchet.StrikesTightenIff | xtask/src/guard.rs:168-216 | every strike leaves the predating table with no new subject and no larger pin, if and only if no row outside the table could lend it one |
| Ratchet.LinesKeepTheirTables | xtask/src/guard.rs:188-216 | under a strike the lines of a table are old lines of it and added rows, and its lines that are no rows stay |
| Ratchet.StrikeKeepsTheLimit | xtask/src/length.rs:250-268 | a strike changes no line the limit is read from |
| Ratchet.LendingLoosens | xtask/src/guard.rs:188-216 | from any register with something to lend, a strike that adds or raises a pin |
| Ratchet.PinsInTheirTable | xtask/src/length.rs:185-207 | where all pins stand in the predating table there is nothing to lend |
| Ratchet.RegisterOnlyTightens | xtask/src/length.rs:185-207 | between any two commits of a history whose registers have nothing to lend, no new subject, no larger pin and the same limit |
| Ratchet.OverLimitOnlyShrinks | xtask/src/length.rs:93-140 | along any run of clean commits with strike-shaped edits and nothing to lend, the over-limit set only shrinks and no file exceeds its earliest pin |
| Ratchet.ParkedPinReturns | xtask/src/guard.rs:220-250 | three clean commits and two strikes after which a file that had left the over-limit set is back in it |
| MemLedger.VerifyLines | crates/runtime/src/replay.rs:80-159 | accepts exactly the sound chains, and names the first faulty line and its fault |
| MemLedger.MemLedger.constructor | citysim/src/mem_ledger.rs:22-30 | a new ledger is empty and its first line will follow the genesis hash |
| MemLedger.MemLedger.Append | citysim/src/mem_ledger.rs:45-52 | appends the one line the state calls for and moves the head to its hash; refuses exactly where the draft cannot be serialised, with the head in place, or at the last number, with the head on a line that is not kept; and when the head is still true afterwards |
| MemLedger.ExtensionVerifies | citysim/src/mem_ledger.rs:45-52 | appending keeps a verifying ledger verifying |
| MemLedger.EveryHistoryVerifies | citysim/src/mem_ledger.rs:22-52 | whatever was drafted, in whatever order and with whichever refusals, the lines verify |
| MemLedger.FullLedgerLosesItsHead | citysim/src/mem_ledger.rs:45-52 | a faithful codec and a history of appends after which the next append moves the head off the lines |
| MemLedger.VerifyingLinesAreChained | crates/runtime/src/replay.rs:80-159 | line i carries the number FIRST+i and the hash of line i-1, the first the genesis hash |
| MemLedger.VerifyingPrefix | crates/runtime/src/replay.rs:80-159 | every prefix of a verifying history verifies |
| MemLedger.HeadFixesHistory | citysim/src/checker.rs:12-15 | two verifying histories with one head hash are equal line for line, or exhibit a collision |
| MemLedger.RewritingIsNoticed | citysim/src/checker.rs:12-15 | any other line in the place of one that is not the last is refused there or one line on |
| Auth.Verify | crates/channels/src/auth.rs:108-118 | the accumulated comparison accepts if and only if a token is presented whose digest is the expected one |
| Session.RunSession | crates/channels/src/server.rs:372-498 | the select loop sends and delivers what the step relation says, and stops where it closes |
| Session.HandleFrame | crates/channels/src/server.rs:396-455 | what one decided frame does to the phase, the socket and the sink |
| Session.TakeLive | crates/channels/src/server.rs:396-498 | a live session stays live or closes exactly as `EndsLive` says, and appends exactly what the turn alone calls for |
| Session.WelcomedIff | crates/channels/src/reception.rs:128-160 | a greeting is accepted if and only if wire and schema agree and, where configured, its token's digest does |
| Session.SessionIsExplained | crates/channels/src/server.rs:372-498 | every interleaving is one of three histories: nothing but what passes by, an end at the first other thing with exactly the farewell it calls for, or a greeting there and a live session until its first ending |
| Session.LiveIffGreeted | crates/channels/src/server.rs:372-498 | the phase is live, and the first frame the welcome, if and only if the first thing received that does not pass by opens the session |
| Session.FirstWordIsWelcomeOrRefusal | crates/channels/src/server.rs:372-498 | the first frame sent is a welcome or a closing refusal, and there is at most one welcome |
| Session.DeliveredExactly | crates/channels/src/reception.rs:191-238 | the commands delivered are exactly those received between greeting and end, in order; there was no opening greeting where the session never went live; with a token configured, the greeting carried it |
| Session.ClosedStaysClosed | crates/channels/src/server.rs:372-498 | nothing is sent or delivered after the close |
| Aggregate.MergeIsTheStableOrder | crates/channels/src/aggregate.rs:145-166 | the merge conserves every sighting and is the only sequence ordered by (t, city, seq) that keeps equal keys as they came |
| Aggregate.KeyTrichotomy | crates/channels/src/aggregate.rs:160-166 | of two keys exactly one comes first, unless they are the same key |
| Aggregate.KeyTransitive | crates/channels/src/aggregate.rs:160-166 | the order of keys is transitive |
| Aggregate.SameViewIff | crates/channels/src/aggregate.rs:145-166 | two lists of streams merge alike if and only if under every key they say the same in the same order |
| Aggregate.ArrivalOrderIsInvisible | crates/channels/src/aggregate.rs:139-158 | where no two streams share a key, every order of the streams gives one merge |
| Aggregate.DistinctCitiesMergeAlike | crates/channels/src/aggregate.rs:139-158 | under distinct labels the order never shows, whatever the cities say |
| Aggregate.UniqueKeysMergeAlike | crates/channels/src/aggregate.rs:139-158 | under unique keys the order never shows, whatever the labels |
| Aggregate.OneLabelTwiceShowsTheOrder | crates/channels/src/aggregate.rs:145-158 | two streams of one label with one key whose order is visible |
| Aggregate.CityStreamSurvivesIff | crates/channels/src/aggregate.rs:145-166 | one city's part of the view is its own stream if and only if the stream is in clock order |
| Aggregate.ClockRunningBackReorders | crates/channels/src/aggregate.rs:145-166 | a city whose clock runs back and whose part of the view is not its stream |
| Snapshot.LabelIsAHandle | crates/browser/src/snapshot.rs:54-66 | a label is at most 121 characters of single-spaced words without controls, and labelling again changes nothing |
| Snapshot.Read | crates/browser/src/snapshot.rs:75-106 | the nodes of listed roles in order, or a refusal of a tree that is not a list |
| Snapshot.ToText | crates/browser/src/snapshot.rs:120-135 | one line a node, in order |
| Snapshot.PushLine | crates/browser/src/snapshot.rs:120-135 | a node without a name prints without quotes |
| Snapshot.SnapshotTextIsInvertible | crates/browser/src/snapshot.rs:120-135 | a parser recovers the nodes from the text, whatever the page put into its labels |
| Snapshot.ReferencesNameTheirNodes | crates/browser/src/snapshot.rs:144-159 | references are distinct, resolve to their own nodes, and read as their positions |
| Snapshot.IndexReads | crates/browser/src/act.rs:111-132 | the reference of position i reads as i |
| Snapshot.UnmintedIsRefused | crates/browser/src/snapshot.rs:144-159 | a reference resolves if and only if the snapshot minted it |
| Quote.QuoteText | crates/browser/src/act.rs:42-58 | the loop writes the delimiters and each character's escape |
| Quote.PushEscaped | crates/browser/src/act.rs:42-58 | each character is pushed as its own escape |
| Quote.QuoteRoundTrips | crates/browser/src/act.rs:42-58 | by the string grammar of section 12.9.4 of ECMA-262 the literal decodes to its text and ends at its own delimiter, whatever follows |
| Quote.QuoteIsPrefixFree | crates/browser/src/act.rs:42-58 | two texts never share a literal, nor does one begin another's code |
| Quote.QuoteStaysOnOneLine | crates/browser/src/act.rs:42-58 | the literal holds no line terminator of the grammar |
| DevLoop.DevLoop.Observe | crates/browser/src/devloop.rs:72-102 | the counters give the verdict the whole history of looks calls for, and every look past the eighth is refused |
| DevLoop.DevLoop.constructor | crates/browser/src/devloop.rs:62-69 | a new loop has looked at nothing |
| DevLoop.LookExtends | crates/browser/src/devloop.rs:72-102 | what one more look does to the quiet texts, their repeats and the verdict |
| DevLoop.RepeatsTwice | crates/browser/src/devloop.rs:72-102 | the counter reaches its bound if and only if the last three quiet texts are equal |
| DevLoop.EveryLoopEnds | crates/browser/src/devloop.rs:44-102 | the eighth look is never told to look again, so a loop that is refused has ended |
| DevLoop.EndingsAreNotRemembered | crates/browser/src/devloop.rs:66-80 | after any history with room, a settled loop answers its next look and settles again, against the documentation |
| DevLoop.ComplaintsDoNotCount | crates/browser/src/devloop.rs:72-102 | a complaint is reported and leaves the quiet texts as they were |
| DevLoop.SteadyPageSettles | crates/browser/src/devloop.rs:72-102 | three equal quiet looks settle on the third, after any history that leaves room for them |
| Policy.Evaluate | crates/city/src/policy.rs:259-361 | the flag-driven pass equals the nearest-heading reading, refusals included |
| Policy.HeadingAboveIsNearest | crates/city/src/policy.rs:268-277 | a line stands under exactly the nearest heading above it |
| Policy.LastSaidIsLast | crates/city/src/policy.rs:294-324 | a setting is what the last line that speaks of it says |
| Policy.ListedInOrder | crates/city/src/policy.rs:278-291 | a list holds the entry of every line that has one for it, each once and in the order of the lines |
| Policy.AcceptedIff | crates/city/src/policy.rs:259-361 | accepted if and only if all declarations are switches, confidentiality is declared, and the last such declaration is not `true` over a listed domain; and that last one decides |
| Policy.ProseIsFree | crates/city/src/policy.rs:259-361 | a line that is no heading, entry or declaration can be added or removed anywhere without changing a rule |
| Policy.ConfidentialReachesNothing | crates/city/src/policy.rs:339-352 | an accepted confidential building admits no host |
| Policy.WriteDomain | crates/city/src/policy.rs:117-136 | granted if and only if a confidential building's prefixes are its own and none is reserved; then the named prefixes or the building itself; a refusal names the first offending prefix |
| Policy.NewDomain | crates/kernel/src/write_domain.rs:27-40 | refused if and only if some prefix is reserved, and then names the first |
| Policy.ConfidentialWritesStayInside | crates/kernel/src/write_domain.rs:46-60 | a confidential building's domain lies inside it, and a run writes nothing outside or reserved |
| Policy.RulesAreOutOfReach | crates/city/src/policy.rs:139-150 | no domain admits the file that states a building's rules |
| Policy.CityFiles.Load | crates/city/src/policy.rs:171-211 | the file's rules, the refusal of a file left at the old place, or an ordinary building |
| Policy.CityFiles.WriteRules | crates/city/src/policy.rs:229-251 | writes a proposal exactly when it evaluates and the file can be written, and otherwise nothing |
| Policy.LoadReturnsLastAccepted | crates/city/src/policy.rs:171-251 | after any history of proposals for any buildings, a building is governed by its last accepted one |
| Policy.UntouchedBuildingsKeepTheirRulesIff | crates/city/src/policy.rs:171-251 | a building without an accepted proposal keeps what it had, if and only if it has a file or no accepted proposal wrote to its old place |
| Policy.OnlyReservedIsShadowed | crates/city/src/policy.rs:154-156 | only a reserved address has another's rules file at its old place, and one below each written building does |
| Policy.ReservedAddressLosesItsRules | crates/city/src/policy.rs:171-211 | one proposal for `lab` after which the untouched address below it is refused |
| ConfigLayers.ReadMounts | crates/city/src/config_layers.rs:228-249 | all mounts in order, or the first that is no address or is reserved |
| ConfigLayers.ReadServers | crates/city/src/config_layers.rs:250-297 | all servers in order, or the first row without a label, a transport of its own or a new name |
| ConfigLayers.ParseLayer | crates/city/src/config_layers.rs:226-303 | the layer a document declares, or its first refusal |
| ConfigLayers.McpRoundTripsIff | crates/city/src/config_layers.rs:135-181 | written servers read back as they were if and only if each is reachable, names are distinct and the rest is readable; the empty list stays stated |
| ConfigLayers.SandboxRoundTripsIff | crates/city/src/config_layers.rs:111-123 | written limits read back as they were if and only if no mount is reserved and the rest is readable |
| ConfigLayers.WrittenLimitsMayBeUnreadable | crates/city/src/config_layers.rs:228-238 | limits the writer takes and no reader does |
| ConfigLayers.EffortRoundTripsIff | crates/city/src/config_layers.rs:77-99 | a written effort reads back if and only if the rest of the file is readable, and the rest stays |
| ConfigLayers.WritersChangeTheirOwnSetting | crates/city/src/config_layers.rs:77-181 | each writer changes its own setting of a readable file and no other |
| ConfigLayers.WritersCommute | crates/city/src/config_layers.rs:77-181 | in any order the writers leave one document |
| ConfigLayers.ConfigFiles.WriteEffort | crates/city/src/config_layers.rs:77-99 | writes the address's own file exactly when it can be read, edited and written, and no other file |
| ConfigLayers.ConfigFiles.WriteSandbox | crates/city/src/config_layers.rs:111-123 | replaces one section of one file, or changes nothing |
| ConfigLayers.ConfigFiles.WriteMcp | crates/city/src/config_layers.rs:135-181 | replaces one section of one file by a row per server in order, or changes nothing |
| ConfigLayers.ConfigFiles.Load | crates/city/src/config_layers.rs:327-359 | reads the city, the building and the resident in this order, and refuses at the first that cannot be read |
| ConfigLayers.ConfigFiles.ReadLayer | crates/city/src/config_layers.rs:361-374 | a missing file is silent; one that cannot be read or parsed is refused |
| ConfigLayers.ConfigFiles.Store | crates/city/src/config_layers.rs:191-198 | replaces the one file, or leaves all as they were |
| ConfigLayers.LoadTakesTheNearest | crates/city/src/config_layers.rs:327-359 | governed if and only if the address has a building and its files are readable; then each setting is that of the nearest file that states it, a shared file counting once |
| ConfigLayers.WritesReachTheirReaders | crates/city/src/config_layers.rs:327-359 | a write moves no run that does not read its file |
| ConfigLayers.ChosenEffortGoverns | crates/city/src/config_layers.rs:66-99 | an effort chosen for an address governs the next run there and moves no other setting |
| ConfigLayers.WrittenServersGovern | crates/kernel/src/config.rs:49-56 | servers written at a rung govern exactly as far as no nearer file speaks of servers |
| ConfigLayers.WrittenLimitsGovern | crates/city/src/config_layers.rs:111-123 | after limits are written a run is governed if and only if no mount is reserved, and by them exactly where no nearer file states any |
| Rooms.CityDirectory.Open | crates/city/src/room.rs:88-123 | the loop over attempts leaves the disk and the answer the recursive search gives |
| Rooms.CityDirectory.TryToMake | crates/city/src/room.rs:98-104 | one attempt: the directories above, then the room itself, which must not exist |
| Rooms.OpenTakesTheLeastFree | crates/city/src/room.rs:88-123 | the least free name among the word and the suffixes 2 to 999, adding that directory and the missing ones above it; the disk as it was where all 999 are taken or the building is a file; a failure where a directory above or the room cannot be made |
| Rooms.MakeDirsAddsPrefixes | crates/city/src/room.rs:98-104 | creating directories keeps the tree and adds missing prefixes only, all of them where it succeeds |
| Rooms.MakeDirsOutcome | crates/city/src/room.rs:98-104 | the path is found taken if and only if a file stands there, and made if and only if each prefix is a directory or can be made one |
| Rooms.SessionNamesAreOneName | crates/kernel/src/address.rs:132-174 | an accepted session name is one canonical segment and not the reserved one |
| Rooms.WordsAreOneName | crates/kernel/src/address.rs:132-174 | a suffixed name is one canonical segment and not the reserved one |
| Rooms.CandidatePlace | crates/city/src/room.rs:89-96 | every candidate is an address, one segment below the building |
| Rooms.OpenedRoomIsNew | crates/city/src/room.rs:98-104 | the room was free before, exists afterwards directly below its building, and nothing is lost |
| Rooms.NoTwoSessionsShareARoom | crates/city/src/room.rs:75-87 | over any history of openings, whatever else was added between, no two sessions share a room |
| Rooms.SimultaneousSessionsDiffer | crates/city/src/room.rs:98-104 | however the file-system calls of any number of sessions are interleaved, and whatever else is made between, no two are given one room |
| Rooms.AloneOpens | crates/city/src/room.rs:88-123 | undisturbed, one session's calls come to what `Open` does |
| Rooms.FileBuildingIsRefused | crates/city/src/room.rs:98-104 | a building that is a file, whose first name is free and refused |
| Rooms.OpenedRoomIsListedIff | crates/city/src/room.rs:43-73 | an opened room joins the listing if and only if its session's name begins with no dot and is not the archive's while that is free; no other room comes or goes |
| Rooms.ArchiveNameIff | crates/city/src/room.rs:88-123 | the least free name is the archive's if and only if the session is called so and the archive has no directory |
| Rooms.DotSessionsAreUnlisted | crates/city/src/room.rs:26-35 | a session name whose room is opened and not listed |

## Left out

- Gates that run cargo, git or a browser, scan for fixed tokens or compute colour, and packaging.
- The guard's sorting of commits by the paths they touch, and its admitted case of a loosening that travels in a commit of its own.
- The wording gate's directory walk, its waivers, and the clipping of the text it prints.
- The function-length and argument-count halves of the length gate, which need a Rust syntax tree; a file the parser refuses.
- Register.AcceptedRowsOnlyShrink: assumes of the diff's own heading lines that each is one the reader skips or begins with neither sign (`ReadableHeadings`); nothing is assumed of the file's lines.
- Ratchet.OverLimitOnlyShrinks: strikes with a masked line are outside it; a line that begins with `++` or `--` is not TOML outside a multi-line string.
- Ratchet.StrikesTightenIff: keys in quoted or dotted headers, arrays whose lines begin with a bracket, and multi-line strings are not told from tables and their lines; two equal rows for one file count as one.
- Lexer.LexSource: `usize` counters are natural numbers; a text longer than the address space is not modelled.
- MemLedger.VerifyLines: the per-kind payload checks of a record are part of the parameter that reads an envelope; segments, files and rebuilding from a prefix are not modelled.
- Auth.Verify: the value is stated, not the time the comparison takes; minting and configuring a token are not modelled.
- Session.RunSession: axum routes, timeouts, the enrolment wait and the broadcast channel's buffering; a lagging receiver is one happening of the loop.
- Session.SessionIsExplained: assumes that a late refusal follows a delivered command, whose reply address is what posts it.
- Aggregate.MergeIsTheStableOrder: the library sort is modelled as a stable insertion; attaching, detaching and forwarding queries are one-branch map operations.
- Snapshot.ReferencesNameTheirNodes: the selector `frame_for` builds filters by role and counts among all nodes, and is not claimed to denote the snapshot's node; the check of the page's generation is one comparison.
- Quote.QuoteRoundTrips: the decoder refuses legacy octal escapes and lone surrogate escapes, which the escaper never writes.
- Policy.CityFiles.WriteRules: creating the directories above the file is part of whether the file can be written.
- Policy.ConfidentialReachesNothing: which hosts an ordinary building's list admits is modelled by `Admits` and not characterised further; the order of the list is not kept.
- ConfigLayers.ParseLayer: TOML syntax, and spellings serde also takes for a section or an enumeration (a positional array, a table with one key); the clock settings, which no file states.
- ConfigLayers.ConfigFiles.WriteSandbox: the refusal's wording is not stated, only what was written and when nothing was.
- Rooms.SimultaneousSessionsDiffer: creating the missing directories above a room is one call; directories others make may come before or after it.
- Rooms.CityDirectory.Open: directories are never removed; case-insensitive file systems and symbolic links are not modelled.
- Rooms.WordsAreOneName: does not keep the 64-character bound of a session name, because a suffix can exceed it and `open` does not check it.
- Rooms.OpenedRoomIsListedIff: the listing is a set; its sorting by address is not modelled.
- Everything else in the repository: the kernel's run loop, memory and gateway internals, the wire's command and answer enumerations, and the adversary and simulation harnesses.
