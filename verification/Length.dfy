/// The length gate's file rule: what a tree of files is reported for under a limit and a register of
/// pins, and when it is reported for nothing.
module Length {
  import opened Text

  /// One source file under the gate; `data` files are not measured.
  datatype Source = Source(rel: string, lines: nat, data: bool)

  datatype Violation =
    | TooLong(rel: string, lines: nat, limit: nat)
    | Grew(rel: string, lines: nat, pinned: nat)
    | NoLongerAnException(rel: string, lines: nat, limit: nat)
    | Stale(rel: string)

  /// What one measured file is reported for.
  function Judged(file: Source, limit: nat, pins: map<string, Word>): seq<Violation> {
    if file.data then []
    else if file.rel !in pins then
      if file.lines > limit then [TooLong(file.rel, file.lines, limit)] else []
    else if file.lines > pins[file.rel] then [Grew(file.rel, file.lines, pins[file.rel])]
    else if file.lines <= limit then [NoLongerAnException(file.rel, file.lines, limit)]
    else []
  }

  function JudgedAll(files: seq<Source>, limit: nat, pins: map<string, Word>): seq<Violation> {
    if files == [] then []
    else JudgedAll(files[..|files| - 1], limit, pins) + Judged(files[|files| - 1], limit, pins)
  }

  /// The names of the files the gate measures.
  function MeasuredNames(files: seq<Source>): set<string> {
    set i | 0 <= i < |files| && !files[i].data :: files[i].rel
  }

  method CheckFileLengths(files: seq<Source>, limit: nat, pins: map<string, Word>)
    returns (violations: seq<Violation>)
    ensures JudgedAll(files, limit, pins) <= violations
    ensures forall v :: v in violations[|JudgedAll(files, limit, pins)|..] <==>
      v.Stale? && v.rel in pins.Keys - MeasuredNames(files)
    ensures Ascending(violations[|JudgedAll(files, limit, pins)|..])
    ensures violations == [] <==> Clean(files, limit, pins)
  {
    hide Judged, JudgedAll, MeasuredNames;
    var judged, seen := JudgeSources(files, limit, pins);
    var stale := StaleRows(pins.Keys - seen);
    violations := judged + stale;
    assert violations[|judged|..] == stale;
    JudgedIsClean(files, limit, pins);
    NoStaleRows(stale, pins.Keys, seen);
    assert violations == [] <==> judged == [] && stale == [];
  }

  lemma NoStaleRows(stale: seq<Violation>, pinned: set<string>, seen: set<string>)
    requires forall v :: v in stale <==> v.Stale? && v.rel in pinned - seen
    ensures stale == [] <==> pinned <= seen
  {
    if rel :| rel in pinned && rel !in seen { assert Stale(rel) in stale; }
    if stale != [] { assert stale[0] in stale; }
  }

  method JudgeSources(files: seq<Source>, limit: nat, pins: map<string, Word>)
    returns (violations: seq<Violation>, seen: set<string>)
    ensures violations == JudgedAll(files, limit, pins)
    ensures seen == MeasuredNames(files)
  {
    hide MeasuredNames;
    violations, seen := [], {};
    NamesSoFar(files, 0);
    for i := 0 to |files|
      invariant violations == JudgedAll(files[..i], limit, pins)
      invariant seen == MeasuredNames(files[..i])
    {
      var file := files[i];
      assert files[..i + 1][..i] == files[..i];
      NamesSoFar(files, i);
      if file.data { continue; }
      seen := seen + {file.rel};
      if file.rel !in pins {
        if file.lines > limit { violations := violations + [TooLong(file.rel, file.lines, limit)]; }
      } else {
        var pinned := pins[file.rel];
        if file.lines > pinned {
          violations := violations + [Grew(file.rel, file.lines, pinned)];
        } else if file.lines <= limit {
          violations := violations + [NoLongerAnException(file.rel, file.lines, limit)];
        }
      }
    }
    assert files[..|files|] == files;
  }

  lemma NamesSoFar(files: seq<Source>, i: nat)
    requires i <= |files|
    ensures MeasuredNames(files[..0]) == {}
    ensures i < |files| ==>
      MeasuredNames(files[..i + 1]) ==
        MeasuredNames(files[..i]) + if files[i].data then {} else {files[i].rel}
  {
    if i < |files| {
      var now, before := files[..i + 1], files[..i];
      assert now == before + [files[i]];
      forall rel | rel in MeasuredNames(before)
        ensures rel in MeasuredNames(now)
      {
        var k :| 0 <= k < |before| && !before[k].data && before[k].rel == rel;
        assert now[k] == before[k];
      }
      if !files[i].data { assert now[i] == files[i]; }
    }
  }

  /// One violation for each of these names, in their order as texts.
  method StaleRows(rels: set<string>) returns (violations: seq<Violation>)
    ensures forall v :: v in violations <==> v.Stale? && v.rel in rels
    ensures Ascending(violations)
  {
    hide TextBefore;
    violations := [];
    var rest := rels;
    while rest != {}
      invariant rest <= rels
      invariant forall v :: v in violations <==> v.Stale? && v.rel in rels - rest
      invariant Ascending(violations)
      invariant forall i, rel | 0 <= i < |violations| && rel in rest :: TextBefore(violations[i].rel, rel)
      decreases rest
    {
      LeastExists(rest);
      var rel :| rel in rest && forall other | other in rest :: other == rel || TextBefore(rel, other);
      rest := rest - {rel};
      violations := violations + [Stale(rel)];
    }
  }

  /// Strictly in the order of their names, so each name once.
  predicate Ascending(violations: seq<Violation>) {
    forall i, j | 0 <= i < j < |violations| :: TextBefore(violations[i].rel, violations[j].rel)
  }

  lemma {:induction false} LeastExists(rels: set<string>)
    requires rels != {}
    ensures exists rel | rel in rels :: forall other | other in rels :: other == rel || TextBefore(rel, other)
  {
    hide TextBefore;
    var some :| some in rels;
    var rest := rels - {some};
    if rest != {} {
      LeastExists(rest);
      var least :| least in rest && forall other | other in rest :: other == least || TextBefore(least, other);
      TextTrichotomy(some, least);
      if TextBefore(some, least) {
        forall other | other in rels
          ensures other == some || TextBefore(some, other)
        {
          if other in rest && other != least { TextTransitive(some, least, other); }
        }
      } else {
        assert forall other | other in rels :: other == least || TextBefore(least, other);
      }
    } else {
      assert rels == {some};
    }
  }

  // ------------------------------------------------------------- what clean means

  /// No measured file is reported, and no pin is left without its file.
  ghost predicate Clean(files: seq<Source>, limit: nat, pins: map<string, Word>) {
    && (forall i | 0 <= i < |files| :: Judged(files[i], limit, pins) == [])
    && pins.Keys <= MeasuredNames(files)
  }

  lemma {:induction false} JudgedIsClean(files: seq<Source>, limit: nat, pins: map<string, Word>)
    ensures JudgedAll(files, limit, pins) == [] <==>
      forall i | 0 <= i < |files| :: Judged(files[i], limit, pins) == []
  {
    hide Judged;
    if files != [] {
      var n := |files| - 1;
      var front := files[..n];
      JudgedIsClean(front, limit, pins);
      assert forall i | 0 <= i < n :: front[i] == files[i];
      assert JudgedAll(files, limit, pins) == [] <==>
        JudgedAll(front, limit, pins) == [] && Judged(files[n], limit, pins) == [];
    }
  }

  ghost predicate DistinctNames(files: seq<Source>) {
    forall i, j | 0 <= i < j < |files| :: files[i].rel != files[j].rel
  }

  /// The measured files over the limit.
  ghost function OverLimit(files: seq<Source>, limit: nat): set<string> {
    set i | 0 <= i < |files| && !files[i].data && files[i].lines > limit :: files[i].rel
  }

  /// A tree is clean if and only if the register names exactly the measured files over the limit,
  /// and each of those is within its pin.
  lemma CleanIff(files: seq<Source>, limit: nat, pins: map<string, Word>)
    requires DistinctNames(files)
    ensures Clean(files, limit, pins) <==>
      && pins.Keys == OverLimit(files, limit)
      && forall i | 0 <= i < |files| && !files[i].data && files[i].rel in pins ::
           files[i].lines <= pins[files[i].rel]
  {
    if Clean(files, limit, pins) {
      forall rel | rel in pins
        ensures rel in OverLimit(files, limit)
      {
        var i :| 0 <= i < |files| && !files[i].data && files[i].rel == rel;
        assert Judged(files[i], limit, pins) == [];
      }
      forall rel | rel in OverLimit(files, limit)
        ensures rel in pins
      {
        var i :| 0 <= i < |files| && !files[i].data && files[i].lines > limit && files[i].rel == rel;
        assert Judged(files[i], limit, pins) == [];
      }
      forall i | 0 <= i < |files| && !files[i].data && files[i].rel in pins
        ensures files[i].lines <= pins[files[i].rel]
      {
        assert Judged(files[i], limit, pins) == [];
      }
    }
    if && pins.Keys == OverLimit(files, limit)
       && forall i | 0 <= i < |files| && !files[i].data && files[i].rel in pins ::
            files[i].lines <= pins[files[i].rel]
    {
      forall i | 0 <= i < |files|
        ensures Judged(files[i], limit, pins) == []
      {
        if !files[i].data && files[i].rel in pins {
          assert files[i].rel in OverLimit(files, limit);
          var j :| 0 <= j < |files| && !files[j].data && files[j].lines > limit && files[j].rel == files[i].rel;
          assert i == j;
        }
      }
    }
  }
}
