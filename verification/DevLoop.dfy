/// A bounded loop of looks at a page, and the verdict on each look as a function of all so far.
module DevLoop {
  import opened Text

  datatype Observation = Observation(text: string, complained: bool)

  datatype Step =
    | Settled(looks: nat)
    | LookAgain(looks: nat)
    | Complained(looks: nat)
    | GaveUp(looks: nat)

  datatype Refusal = LoopSuspected

  const LOOKS_MAX: nat := 8
  const QUIET_LOOKS: nat := 2

  /// The texts of the looks that did not complain, in order.
  function Quiet(history: seq<Observation>): seq<string> {
    if history == [] then []
    else
      Quiet(history[..|history| - 1])
      + if history[|history| - 1].complained then [] else [history[|history| - 1].text]
  }

  /// The last three quiet looks show one page.
  predicate StoppedChanging(history: seq<Observation>) {
    var quiet := Quiet(history);
    |quiet| >= 3 && quiet[|quiet| - 1] == quiet[|quiet| - 2] == quiet[|quiet| - 3]
  }

  /// The verdict on the last look, read off the history alone.
  function Verdict(history: seq<Observation>): Step
    requires history != []
  {
    var looks := |history|;
    if history[looks - 1].complained then Complained(looks)
    else if StoppedChanging(history) then Settled(looks)
    else if looks == LOOKS_MAX then GaveUp(looks)
    else LookAgain(looks)
  }

  /// How many of the last texts repeat the one before them.
  function Repeats(quiet: seq<string>): nat {
    if |quiet| >= 2 && quiet[|quiet| - 1] == quiet[|quiet| - 2]
    then Repeats(quiet[..|quiet| - 1]) + 1 else 0
  }

  lemma RepeatsTwice(quiet: seq<string>)
    ensures Repeats(quiet) >= QUIET_LOOKS <==>
      |quiet| >= 3 && quiet[|quiet| - 1] == quiet[|quiet| - 2] == quiet[|quiet| - 3]
  {
    if |quiet| >= 2 {
      var front := quiet[..|quiet| - 1];
      if |front| >= 2 { assert front[|front| - 1] == quiet[|quiet| - 2] && front[|front| - 2] == quiet[|quiet| - 3]; }
    }
  }

  class DevLoop {
    var looks: nat
    var sameInARow: nat
    var last: Option<string>
    /// Every look the loop accepted, for the specification.
    ghost var history: seq<Observation>

    ghost predicate Valid()
      reads this
    {
      var quiet := Quiet(history);
      && looks == |history| <= LOOKS_MAX
      && sameInARow == Repeats(quiet)
      && last == (if quiet == [] then None else Some(quiet[|quiet| - 1]))
    }

    constructor ()
      ensures Valid() && history == []
    {
      looks, sameInARow, last, history := 0, 0, None, [];
    }

    /// The verdict on a look is a function of the looks so far, and a look after the eighth is
    /// refused whatever was said before.
    method Observe(observation: Observation) returns (result: Result<Step, Refusal>)
      requires Valid()
      modifies this
      ensures Valid()
      ensures result.Err? <==> |old(history)| == LOOKS_MAX
      ensures result.Err? ==>
        && history == old(history) && looks == old(looks)
        && sameInARow == old(sameInARow) && last == old(last)
      ensures result.Ok? ==>
        && history == old(history) + [observation]
        && result.value == Verdict(history)
    {
      hide Quiet, Repeats, Verdict;
      if looks >= LOOKS_MAX { return Err(LoopSuspected); }
      LookExtends(history, observation);
      history := history + [observation];
      looks := looks + 1;
      if observation.complained { return Ok(Complained(looks)); }
      var same := last == Some(observation.text);
      sameInARow := if same then sameInARow + 1 else 0;
      last := Some(observation.text);
      if sameInARow >= QUIET_LOOKS { return Ok(Settled(looks)); }
      if looks >= LOOKS_MAX { return Ok(GaveUp(looks)); }
      return Ok(LookAgain(looks));
    }
  }

  /// What one more look does to the quiet texts, to how many repeat, and to the verdict.
  lemma LookExtends(history: seq<Observation>, observation: Observation)
    ensures
      var quiet, grown := Quiet(history), history + [observation];
      if observation.complained then
        Quiet(grown) == quiet && Verdict(grown) == Complained(|grown|)
      else
        && Quiet(grown) == quiet + [observation.text]
        && Repeats(Quiet(grown)) ==
             (if quiet != [] && quiet[|quiet| - 1] == observation.text then Repeats(quiet) + 1 else 0)
        && Verdict(grown) ==
             if Repeats(Quiet(grown)) >= QUIET_LOOKS then Settled(|grown|)
             else if |grown| == LOOKS_MAX then GaveUp(|grown|) else LookAgain(|grown|)
  {
    hide Quiet, Repeats;
    QuietGrows(history, observation);
    RepeatsGrow(Quiet(history), observation.text);
    RepeatsTwice(Quiet(history + [observation]));
  }

  lemma QuietGrows(history: seq<Observation>, observation: Observation)
    ensures Quiet(history + [observation])
         == if observation.complained then Quiet(history) else Quiet(history) + [observation.text]
  {
    assert (history + [observation])[..|history|] == history;
  }

  lemma RepeatsGrow(quiet: seq<string>, text: string)
    ensures Repeats(quiet + [text])
         == if quiet != [] && quiet[|quiet| - 1] == text then Repeats(quiet) + 1 else 0
  {
    assert (quiet + [text])[..|quiet|] == quiet;
  }

  /// Whether the loop was told anything but to look again, at some look.
  ghost predicate Ended(history: seq<Observation>) {
    exists n | 0 < n <= |history| :: !Verdict(history[..n]).LookAgain?
  }

  /// Every loop ends: whatever the page does, a loop that is refused a look was given an ending.
  lemma EveryLoopEnds(history: seq<Observation>)
    requires |history| == LOOKS_MAX
    ensures !Verdict(history).LookAgain? && Ended(history)
  {
    assert history[..LOOKS_MAX] == history;
  }

  /// The converse fails: an ending is not remembered. A loop that settled with looks to spare is
  /// refused nothing, and its next look at the same page is told that it settled once more.
  lemma EndingsAreNotRemembered(history: seq<Observation>, text: string)
    requires |history| + 4 <= LOOKS_MAX
    ensures
      var look := Observation(text, false);
      var settled := history + [look, look, look];
      && Verdict(settled) == Settled(|settled|) && Ended(settled) && |settled| < LOOKS_MAX
      && Verdict(settled + [look]) == Settled(|settled| + 1)
  {
    var look := Observation(text, false);
    var settled := history + [look, look, look];
    SteadyPageSettles(history, text);
    SteadyPageSettles(history + [look], text);
    assert settled + [look] == (history + [look]) + [look, look, look];
    assert settled[..|settled|] == settled;
  }

  /// A complaining look gets its own verdict at once, and the quiet texts stay as they were.
  lemma ComplaintsDoNotCount(history: seq<Observation>, complaint: Observation)
    requires complaint.complained
    ensures Verdict(history + [complaint]) == Complained(|history| + 1)
    ensures Quiet(history + [complaint]) == Quiet(history)
  {
    assert (history + [complaint])[..|history|] == history;
  }

  /// A page that shows the same text three looks running settles on the third, complaints aside.
  lemma SteadyPageSettles(history: seq<Observation>, text: string)
    requires |history| + 3 <= LOOKS_MAX
    ensures
      var look := Observation(text, false);
      Verdict(history + [look, look, look]) == Settled(|history| + 3)
  {
    var look := Observation(text, false);
    var h3 := history + [look, look, look];
    var h2 := h3[..|h3| - 1];
    var h1 := h2[..|h2| - 1];
    assert h1[..|h1| - 1] == history;
    assert Quiet(h1) == Quiet(history) + [text];
    assert Quiet(h2) == Quiet(h1) + [text];
    assert Quiet(h3) == Quiet(h2) + [text];
  }
}
