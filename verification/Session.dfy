/// A socket session as a step relation over what it receives, the loop that runs it, and an account
/// of its state by its history alone.
module Session {
  import opened Text
  import opened Auth

  datatype Hello = Hello(wireV: nat, schema: Digest, token: Option<string>)

  datatype ClientFrame = Greets(hello: Hello) | Commands(command: string) | Asks(query: string)

  datatype Welcome = Welcome(wireV: nat, schema: Digest, resumeFrom: Option<Word>, city: Option<string>)

  datatype Refusal =
    | WireMismatch | TokenMismatch | NotOpened | AlreadyOpen | Garbled
    | AnswerLost | Said(why: string)

  datatype ServerFrame =
    | Welcomes(welcome: Welcome)
    | Event(record: string)
    | Answer(answer: string)
    | Refuses(refusal: Refusal)
    | Delta(text: string)

  /// What the server was built and configured with. `digest` hashes a token's bytes.
  datatype Config = Config(
    wireV: nat, schema: Digest, token: Option<Digest>, city: Option<string>, digest: string -> Digest)

  datatype Phase = AwaitingHello | Live

  datatype SessionStep =
    | Greet(welcome: Welcome)
    | Deliver(command: string)
    | Evaluate(query: string)
    | Refuse(error: Refusal, close: bool)

  // ------------------------------------------------------------ the judgements

  /// The refusal a greeting meets, if any; a wire mismatch hides a token mismatch.
  function DecideHandshake(hello: Hello, expected: Welcome, config: Config): (verdict: Option<Refusal>) {
    if hello.wireV != expected.wireV || hello.schema != expected.schema then Some(WireMismatch)
    else if config.token.None? then None
    else if Matches(config.digest, hello.token, config.token.value) then None
    else Some(TokenMismatch)
  }

  function DecideFrame(phase: Phase, frame: ClientFrame, config: Config): SessionStep {
    var expected := Welcome(config.wireV, config.schema, None, config.city);
    match (phase, frame)
    case (AwaitingHello, Greets(hello)) =>
      (match DecideHandshake(hello, expected, config)
       case None => Greet(expected)
       case Some(error) => Refuse(error, true))
    case (AwaitingHello, _) => Refuse(NotOpened, true)
    case (Live, Commands(command)) => Deliver(command)
    case (Live, Asks(query)) => Evaluate(query)
    case (Live, Greets(_)) => Refuse(AlreadyOpen, false)
  }

  // ------------------------------------------------------------ what can happen

  datatype Outcome = Answered(answer: string) | Failed(why: string) | Dropped

  /// What one turn of the loop receives. A frame carries what the command sink and the query
  /// evaluator would say of it.
  datatype Happening =
    | SocketGone
    | NotText
    | Undecodable
    | Frame(frame: ClientFrame, sinkRefuses: Option<string>, outcome: Outcome)
    | LateRefusal(why: string)
    | Published(record: string)
    | EventsLagged
    | EventsClosed
    | Spoken(text: string)
    | DeltasMissed

  /// A happening, and whether the socket would take a frame just then.
  datatype Turn = Turn(what: Happening, sendOk: bool)

  datatype Act = Sent(frame: ServerFrame) | Delivered(command: string)

  datatype State = State(phase: Phase, open: bool, log: seq<Act>)

  const START := State(AwaitingHello, true, [])

  function ReplyTo(outcome: Outcome): ServerFrame {
    match outcome
    case Answered(answer) => Answer(answer)
    case Failed(why) => Refuses(Said(why))
    case Dropped => Refuses(AnswerLost)
  }

  /// Sends a frame; the session survives unless the socket refuses it.
  function Push(s: State, frame: ServerFrame, sendOk: bool): State {
    s.(log := s.log + [Sent(frame)], open := sendOk)
  }

  function TakeFrame(s: State, frame: ClientFrame, turn: Turn, config: Config): State
    requires turn.what.Frame?
  {
    match DecideFrame(s.phase, frame, config)
    case Greet(welcome) => Push(s.(phase := Live), Welcomes(welcome), turn.sendOk)
    case Deliver(command) =>
      var handed := s.(log := s.log + [Delivered(command)]);
      if turn.what.sinkRefuses.Some?
      then Push(handed, Refuses(Said(turn.what.sinkRefuses.value)), turn.sendOk) else handed
    case Evaluate(_) => Push(s, ReplyTo(turn.what.outcome), turn.sendOk)
    case Refuse(error, close) => Push(s, Refuses(error), !close)
  }

  function Take(s: State, turn: Turn, config: Config): State {
    if !s.open then s
    else
      match turn.what
      case SocketGone => s.(open := false)
      case NotText => s
      case Undecodable => Push(s, Refuses(Garbled), false)
      case Frame(frame, _, _) => TakeFrame(s, frame, turn, config)
      case LateRefusal(why) => Push(s, Refuses(Said(why)), turn.sendOk)
      case Published(record) => if s.phase == Live then Push(s, Event(record), turn.sendOk) else s
      case EventsLagged => s
      case EventsClosed => s.(open := false)
      case Spoken(text) => if s.phase == Live then Push(s, Delta(text), turn.sendOk) else s
      case DeltasMissed => s
  }

  function After(turns: seq<Turn>, config: Config): State {
    if turns == [] then START
    else Take(After(turns[..|turns| - 1], config), turns[|turns| - 1], config)
  }

  /// The loop: one turn per happening until the session ends.
  method RunSession(turns: seq<Turn>, config: Config) returns (log: seq<Act>, open: bool)
    ensures log == After(turns, config).log && open == After(turns, config).open
  {
    hide DecideFrame, TakeFrame;
    var phase := AwaitingHello;
    log, open := [], true;
    var i := 0;
    while i < |turns| && open
      invariant i <= |turns|
      invariant State(phase, open, log) == After(turns[..i], config)
      decreases |turns| - i
    {
      var turn := turns[i];
      assert turns[..i + 1][..i] == turns[..i];
      match turn.what {
        case SocketGone => open := false;
        case NotText =>
        case Undecodable => log, open := log + [Sent(Refuses(Garbled))], false;
        case Frame(frame, _, _) => phase, open, log := HandleFrame(phase, log, frame, turn, config);
        case LateRefusal(why) => log, open := log + [Sent(Refuses(Said(why)))], turn.sendOk;
        case Published(record) =>
          if phase == Live { log, open := log + [Sent(Event(record))], turn.sendOk; }
        case EventsLagged =>
        case EventsClosed => open := false;
        case Spoken(text) =>
          if phase == Live { log, open := log + [Sent(Delta(text))], turn.sendOk; }
        case DeltasMissed =>
      }
      i := i + 1;
    }
    if !open { ClosedStaysClosed(turns, config, i); }
    assert turns[..|turns|] == turns;
  }

  method HandleFrame(was: Phase, logWas: seq<Act>, frame: ClientFrame, turn: Turn, config: Config)
    returns (phase: Phase, open: bool, log: seq<Act>)
    requires turn.what.Frame?
    ensures State(phase, open, log) == TakeFrame(State(was, true, logWas), frame, turn, config)
  {
    phase, open, log := was, true, logWas;
    match DecideFrame(phase, frame, config)
    case Greet(welcome) =>
      phase := Live;
      log, open := log + [Sent(Welcomes(welcome))], turn.sendOk;
    case Deliver(command) =>
      log := log + [Delivered(command)];
      if turn.what.sinkRefuses.Some? {
        log, open := log + [Sent(Refuses(Said(turn.what.sinkRefuses.value)))], turn.sendOk;
      }
    case Evaluate(_) =>
      log, open := log + [Sent(ReplyTo(turn.what.outcome))], turn.sendOk;
    case Refuse(error, close) =>
      log := log + [Sent(Refuses(error))];
      if close { open := false; }
  }

  lemma {:induction false} ClosedStaysClosed(turns: seq<Turn>, config: Config, i: nat)
    requires i <= |turns| && !After(turns[..i], config).open
    ensures After(turns, config) == After(turns[..i], config)
    decreases |turns| - i
  {
    if i < |turns| {
      assert turns[..i + 1][..i] == turns[..i];
      ClosedStaysClosed(turns, config, i + 1);
    } else {
      assert turns[..i] == turns;
    }
  }

  // --------------------------------------------- the session read off its history

  /// A frame that opens the session: a greeting in this server's own protocol, with the configured
  /// token when one is configured.
  predicate Opens(turn: Turn, config: Config) {
    && turn.what.Frame? && turn.what.frame.Greets?
    && var hello := turn.what.frame.hello;
       && hello.wireV == config.wireV && hello.schema == config.schema
       && (config.token.Some? ==>
             hello.token.Some? && config.digest(hello.token.value) == config.token.value)
  }

  /// Nothing that reaches a session still waiting to be greeted.
  predicate PassesBy(turn: Turn) {
    || turn.what.NotText?
    || turn.what.Published? || turn.what.EventsLagged?
    || turn.what.Spoken? || turn.what.DeltasMissed?
  }

  /// Ends a live session: the peer or the city went away, or a frame owed to the peer cannot be sent.
  predicate EndsLive(turn: Turn) {
    match turn.what
    case SocketGone => true
    case Undecodable => true
    case EventsClosed => true
    case Frame(Commands(_), refuses, _) => refuses.Some? && !turn.sendOk
    case Frame(Asks(_), _, _) => !turn.sendOk
    case Frame(Greets(_), _, _) => false
    case LateRefusal(_) => !turn.sendOk
    case Published(_) => !turn.sendOk
    case Spoken(_) => !turn.sendOk
    case _ => false
  }

  ghost predicate WaitingFor(turns: seq<Turn>, n: nat) {
    n <= |turns| && forall j | 0 <= j < n :: PassesBy(turns[j])
  }

  /// The turn `w` greeted the session, before which nothing else had reached it.
  ghost predicate GreetedAt(turns: seq<Turn>, config: Config, w: nat) {
    w < |turns| && WaitingFor(turns, w) && Opens(turns[w], config)
  }

  /// When turn `n` comes the session is live, having been greeted at turn `w`.
  ghost predicate LiveSince(turns: seq<Turn>, config: Config, w: nat, n: nat) {
    && w < n <= |turns| && GreetedAt(turns, config, w) && turns[w].sendOk
    && forall j | w < j < n :: !EndsLive(turns[j])
  }

  /// What a live session does about one turn.
  function LiveActs(turn: Turn): seq<Act> {
    match turn.what
    case Undecodable => [Sent(Refuses(Garbled))]
    case Frame(Commands(command), refuses, _) =>
      [Delivered(command)] + if refuses.Some? then [Sent(Refuses(Said(refuses.value)))] else []
    case Frame(Asks(_), _, outcome) => [Sent(ReplyTo(outcome))]
    case Frame(Greets(_), _, _) => [Sent(Refuses(AlreadyOpen))]
    case LateRefusal(why) => [Sent(Refuses(Said(why)))]
    case Published(record) => [Sent(Event(record))]
    case Spoken(text) => [Sent(Delta(text))]
    case _ => []
  }

  function LiveLog(turns: seq<Turn>, w: nat, n: nat): seq<Act>
    requires w < n <= |turns|
    decreases n
  {
    if n == w + 1 then [] else LiveLog(turns, w, n - 1) + LiveActs(turns[n - 1])
  }

  function Greeting(config: Config): Act {
    Sent(Welcomes(Welcome(config.wireV, config.schema, None, config.city)))
  }

  /// Every late refusal comes after some delivered command.
  ghost predicate Feasible(turns: seq<Turn>, config: Config) {
    forall i | 0 <= i < |turns| && turns[i].what.LateRefusal? ::
      exists command :: Delivered(command) in After(turns[..i], config).log
  }

  lemma TakeLive(s: State, turn: Turn, config: Config)
    requires s.open && s.phase == Live
    ensures Take(s, turn, config) == State(Live, !EndsLive(turn), s.log + LiveActs(turn))
  {
    match turn.what
    case Frame(Commands(command), refuses, _) =>
      if refuses.Some? {
        var refusal := Sent(Refuses(Said(refuses.value)));
        assert s.log + [Delivered(command)] + [refusal] == s.log + ([Delivered(command)] + [refusal]);
      } else {
        assert [Delivered(command)] + [] == [Delivered(command)];
      }
    case _ =>
  }

  lemma TakeWaiting(turn: Turn, config: Config)
    requires !turn.what.LateRefusal?
    ensures PassesBy(turn) ==> Take(START, turn, config) == START
    ensures Opens(turn, config) ==>
      Take(START, turn, config) == State(Live, turn.sendOk, [Greeting(config)])
    ensures !PassesBy(turn) && !Opens(turn, config) ==>
      var after := Take(START, turn, config);
      after == State(AwaitingHello, false, Farewell(turn, config))
  {
  }

  /// What a session that was never greeted is sent at the turn that ends it: nothing where a side
  /// went away, and otherwise why its first frame did not open it.
  function Farewell(turn: Turn, config: Config): seq<Act> {
    match turn.what
    case Undecodable => [Sent(Refuses(Garbled))]
    case Frame(Greets(hello), _, _) =>
      if hello.wireV == config.wireV && hello.schema == config.schema
      then [Sent(Refuses(TokenMismatch))] else [Sent(Refuses(WireMismatch))]
    case Frame(_, _, _) => [Sent(Refuses(NotOpened))]
    case _ => []
  }

  /// The turn `w` is the first that is not passed by, and it does not open the session.
  ghost predicate UnheardAt(turns: seq<Turn>, config: Config, w: nat) {
    w < |turns| && WaitingFor(turns, w) && !PassesBy(turns[w]) && !Opens(turns[w], config)
  }

  /// The three histories a session can have had: still waiting, ended by the first thing it received,
  /// or greeted by it.
  ghost predicate Explained(turns: seq<Turn>, config: Config, s: State) {
    || (s == START && WaitingFor(turns, |turns|))
    || (exists w: nat :: UnheardAt(turns, config, w) && s == State(AwaitingHello, false, Farewell(turns[w], config)))
    || exists w, n | 0 <= w < n <= |turns| :: ExplainedLive(turns, config, s, w, n)
  }

  /// Greeted at `w`, and live through the turns before `n`, where it ended or where it stands.
  ghost predicate ExplainedLive(turns: seq<Turn>, config: Config, s: State, w: nat, n: nat)
    requires w < n <= |turns|
  {
    && GreetedAt(turns, config, w)
    && (n > w + 1 ==> LiveSince(turns, config, w, n - 1))
    && s == State(Live, LiveSince(turns, config, w, n), [Greeting(config)] + LiveLog(turns, w, n))
    && (s.open ==> n == |turns|)
  }

  lemma WaitingExtends(front: seq<Turn>, turn: Turn, config: Config)
    requires WaitingFor(front, |front|) && !turn.what.LateRefusal?
    ensures Explained(front + [turn], config, Take(START, turn, config))
  {
    hide Take, Opens;
    var turns, n := front + [turn], |front|;
    TakeWaiting(turn, config);
    if PassesBy(turn) {
      assert WaitingFor(turns, |turns|);
    } else if Opens(turn, config) {
      assert GreetedAt(turns, config, n);
      assert LiveLog(turns, n, n + 1) == [];
      assert [Greeting(config)] + [] == [Greeting(config)];
      assert ExplainedLive(turns, config, Take(START, turn, config), n, n + 1);
    } else {
      assert turns[n] == turn && UnheardAt(turns, config, n);
    }
  }

  lemma GreetedExtends(front: seq<Turn>, turn: Turn, config: Config, w: nat)
    ensures w < |front| ==> (GreetedAt(front + [turn], config, w) <==> GreetedAt(front, config, w))
    ensures forall n | w < n <= |front| ::
      LiveSince(front + [turn], config, w, n) <==> LiveSince(front, config, w, n)
  {
    hide Opens, EndsLive, PassesBy;
    var turns := front + [turn];
    assert forall j | 0 <= j < |front| :: turns[j] == front[j];
  }

  lemma {:induction false} LiveLogExtends(front: seq<Turn>, turn: Turn, w: nat, n: nat)
    requires w < n <= |front|
    ensures LiveLog(front + [turn], w, n) == LiveLog(front, w, n)
    decreases n
  {
    if n > w + 1 { LiveLogExtends(front, turn, w, n - 1); }
  }

  lemma LiveLogStep(turns: seq<Turn>, w: nat, n: nat)
    requires w < n < |turns|
    ensures LiveLog(turns, w, n + 1) == LiveLog(turns, w, n) + LiveActs(turns[n])
  {
    hide LiveActs;
  }

  lemma LiveExtends(front: seq<Turn>, turn: Turn, config: Config, s: State, w: nat, n: nat)
    requires w < n <= |front| && ExplainedLive(front, config, s, w, n)
    ensures Explained(front + [turn], config, Take(s, turn, config))
  {
    hide Take, LiveActs, LiveLog, EndsLive, GreetedAt, Greeting;
    var turns := front + [turn];
    GreetedExtends(front, turn, config, w);
    LiveLogExtends(front, turn, w, n);
    if s.open {
      TakeLive(s, turn, config);
      assert turns[n] == turn;
      LiveLogStep(turns, w, n);
      Regrouped([Greeting(config)], LiveLog(turns, w, n), LiveActs(turn));
      assert ExplainedLive(turns, config, Take(s, turn, config), w, n + 1);
    } else {
      ClosedIgnores(s, turn, config);
      assert ExplainedLive(turns, config, s, w, n);
    }
  }

  /// Every feasible interleaving is explained: the mutable phase and the log say nothing that the
  /// order of happenings does not.
  lemma {:induction false} SessionIsExplained(turns: seq<Turn>, config: Config)
    requires Feasible(turns, config)
    ensures Explained(turns, config, After(turns, config))
  {
    hide Take, ExplainedLive;
    if turns != [] {
      var n := |turns| - 1;
      var front, turn := turns[..n], turns[n];
      assert turns == front + [turn];
      assert Feasible(front, config) by {
        forall i | 0 <= i < n && front[i].what.LateRefusal?
          ensures exists command :: Delivered(command) in After(front[..i], config).log
        {
          assert front[..i] == turns[..i] && turns[i].what.LateRefusal?;
        }
      }
      SessionIsExplained(front, config);
      var s := After(front, config);
      if s == START && WaitingFor(front, |front|) {
        assert !turn.what.LateRefusal?;
        WaitingExtends(front, turn, config);
      } else if w, n :| 0 <= w < n <= |front| && ExplainedLive(front, config, s, w, n) {
        LiveExtends(front, turn, config, s, w, n);
      } else {
        var w: nat :| UnheardAt(front, config, w) && s == State(AwaitingHello, false, Farewell(front[w], config));
        ClosedIgnores(s, turn, config);
        UnheardExtends(front, turn, config, w);
      }
    }
  }

  lemma UnheardExtends(front: seq<Turn>, turn: Turn, config: Config, w: nat)
    requires UnheardAt(front, config, w)
    ensures UnheardAt(front + [turn], config, w) && (front + [turn])[w] == front[w]
  {
    hide Opens, PassesBy;
    var turns := front + [turn];
    assert forall j | 0 <= j < |front| :: turns[j] == front[j];
  }

  /// A session is live, or has been, if and only if the first thing it did not pass by opened it; no
  /// server that hangs up instead is explained.
  lemma LiveIffGreeted(turns: seq<Turn>, config: Config)
    requires Feasible(turns, config)
    ensures After(turns, config).phase == Live <==> exists w: nat :: GreetedAt(turns, config, w)
    ensures
      (exists w: nat :: GreetedAt(turns, config, w))
      <==> After(turns, config).log != [] && After(turns, config).log[0] == Greeting(config)
  {
    hide After, PassesBy, LiveLog, LiveSince;
    SessionIsExplained(turns, config);
    var s := After(turns, config);
    if w: nat :| GreetedAt(turns, config, w) {
      OpeningIsHeard(turns, config, w);
    }
  }

  lemma OpeningIsHeard(turns: seq<Turn>, config: Config, w: nat)
    requires GreetedAt(turns, config, w)
    ensures !WaitingFor(turns, |turns|)
    ensures forall v: nat :: !UnheardAt(turns, config, v)
  {
    assert !PassesBy(turns[w]);
    forall v: nat
      ensures !UnheardAt(turns, config, v)
    {
      if v < w { assert PassesBy(turns[v]); }
    }
  }

  lemma ClosedIgnores(s: State, turn: Turn, config: Config)
    requires !s.open
    ensures Take(s, turn, config) == s
  {
  }

  // ---------------------------------------------------------------- safety

  lemma {:induction false} LiveLogNeverGreets(turns: seq<Turn>, w: nat, n: nat)
    requires w < n <= |turns|
    ensures forall act | act in LiveLog(turns, w, n) :: !(act.Sent? && act.frame.Welcomes?)
    decreases n
  {
    hide LiveActs;
    if n > w + 1 {
      LiveLogNeverGreets(turns, w, n - 1);
      LiveActsNeverGreet(turns[n - 1]);
    }
  }

  lemma LiveActsNeverGreet(turn: Turn)
    ensures forall act | act in LiveActs(turn) :: !(act.Sent? && act.frame.Welcomes?)
  {
  }

  /// The first thing a peer is ever sent is a welcome or a refusal that closes the session; nothing
  /// is delivered, answered or pushed before the welcome, and there is only one.
  lemma FirstWordIsWelcomeOrRefusal(turns: seq<Turn>, config: Config)
    requires Feasible(turns, config)
    ensures
      var s := After(turns, config);
      || s.log == []
      || (s.log[0] == Greeting(config)
          && forall i | 0 < i < |s.log| :: !(s.log[i].Sent? && s.log[i].frame.Welcomes?))
      || (|s.log| == 1 && s.log[0].Sent? && s.log[0].frame.Refuses? && !s.open)
  {
    hide After, ExplainedLive, UnheardAt, WaitingFor, Greeting;
    SessionIsExplained(turns, config);
    var s := After(turns, config);
    if w, n :| 0 <= w < n <= |turns| && ExplainedLive(turns, config, s, w, n) {
      LiveGreetsOnce(turns, config, s, w, n);
    }
  }

  lemma LiveGreetsOnce(turns: seq<Turn>, config: Config, s: State, w: nat, n: nat)
    requires w < n <= |turns| && ExplainedLive(turns, config, s, w, n)
    ensures s.log != [] && s.log[0] == Greeting(config)
    ensures forall i | 0 < i < |s.log| :: !(s.log[i].Sent? && s.log[i].frame.Welcomes?)
  {
    hide LiveLog, LiveSince, GreetedAt, Greeting;
    LiveLogNeverGreets(turns, w, n);
    forall i | 0 < i < |s.log|
      ensures !(s.log[i].Sent? && s.log[i].frame.Welcomes?)
    {
      assert s.log[i] == LiveLog(turns, w, n)[i - 1];
    }
  }

  /// The commands among some acts, in order.
  function CommandsIn(log: seq<Act>): seq<string> {
    if log == [] then []
    else CommandsIn(log[..|log| - 1]) + if log[|log| - 1].Delivered? then [log[|log| - 1].command] else []
  }

  /// The commands a peer sent in the turns after `w` and before `n`, in order.
  function CommandFrames(turns: seq<Turn>, w: nat, n: nat): seq<string>
    requires w < n <= |turns|
    decreases n
  {
    if n == w + 1 then []
    else
      CommandFrames(turns, w, n - 1)
      + if turns[n - 1].what.Frame? && turns[n - 1].what.frame.Commands?
        then [turns[n - 1].what.frame.command] else []
  }

  lemma {:induction false} CommandsAppend(front: seq<Act>, back: seq<Act>)
    ensures CommandsIn(front + back) == CommandsIn(front) + CommandsIn(back)
  {
    hide CommandsIn;
    if back == [] {
      assert front + back == front;
      NothingDelivered();
    } else {
      var m := |back| - 1;
      CommandsAppend(front, back[..m]);
      assert front + back == (front + back[..m]) + [back[m]] && back == back[..m] + [back[m]];
      CommandsStep(front + back[..m], back[m]);
      CommandsStep(back[..m], back[m]);
      var last := if back[m].Delivered? then [back[m].command] else [];
      Regrouped(CommandsIn(front), CommandsIn(back[..m]), last);
    }
  }

  lemma CommandsStep(front: seq<Act>, act: Act)
    ensures CommandsIn(front + [act])
         == CommandsIn(front) + if act.Delivered? then [act.command] else []
  {
    assert (front + [act])[..|front|] == front;
  }

  lemma CommandsOfLiveActs(turn: Turn)
    ensures CommandsIn(LiveActs(turn)) ==
      if turn.what.Frame? && turn.what.frame.Commands? then [turn.what.frame.command] else []
  {
    var acts := LiveActs(turn);
    if |acts| == 2 {
      assert acts == [acts[0]] + [acts[1]];
      CommandsAppend([acts[0]], [acts[1]]);
      CommandOfOne(acts[0]);
      CommandOfOne(acts[1]);
    } else if |acts| == 1 {
      assert acts == [acts[0]];
      CommandOfOne(acts[0]);
    }
  }

  lemma CommandOfOne(act: Act)
    ensures CommandsIn([act]) == if act.Delivered? then [act.command] else []
  {
    assert [act][..0] == [];
  }

  lemma NothingDelivered()
    ensures CommandsIn([]) == []
  {
  }

  lemma {:induction false} CommandsOfLiveLog(turns: seq<Turn>, w: nat, n: nat)
    requires w < n <= |turns|
    ensures CommandsIn(LiveLog(turns, w, n)) == CommandFrames(turns, w, n)
    decreases n
  {
    hide LiveActs, CommandsIn;
    if n == w + 1 {
      NothingDelivered();
    } else {
      CommandsOfLiveLog(turns, w, n - 1);
      CommandsAppend(LiveLog(turns, w, n - 1), LiveActs(turns[n - 1]));
      CommandsOfLiveActs(turns[n - 1]);
    }
  }

  lemma LiveDelivers(turns: seq<Turn>, config: Config, s: State, w: nat, n: nat)
    requires w < n <= |turns| && ExplainedLive(turns, config, s, w, n)
    ensures CommandsIn(s.log) == CommandFrames(turns, w, n)
    ensures
      && turns[w].what.Frame? && turns[w].what.frame.Greets?
      && (config.token.Some? ==> Matches(config.digest, turns[w].what.frame.hello.token, config.token.value))
  {
    hide CommandsIn, LiveLog, LiveSince, WaitingFor, CommandFrames;
    CommandsAppend([Greeting(config)], LiveLog(turns, w, n));
    CommandOfOne(Greeting(config));
    CommandsOfLiveLog(turns, w, n);
  }

  /// What reached the command sink is exactly the commands the peer sent between its greeting and
  /// the end of its session, each once and in order; a peer that was never greeted ran nothing. And
  /// where a token is configured, the greeting carried one whose digest is the configured one.
  lemma DeliveredExactly(turns: seq<Turn>, config: Config)
    requires Feasible(turns, config)
    ensures
      var s := After(turns, config);
      || (CommandsIn(s.log) == [] && s.phase == AwaitingHello
          && forall w: nat :: !GreetedAt(turns, config, w))
      || exists w, n | 0 <= w < n <= |turns| ::
           && ExplainedLive(turns, config, s, w, n)
           && CommandsIn(s.log) == CommandFrames(turns, w, n)
           && turns[w].what.Frame? && turns[w].what.frame.Greets?
           && (config.token.Some? ==>
                 Matches(config.digest, turns[w].what.frame.hello.token, config.token.value))
  {
    hide After, CommandsIn, ExplainedLive, CommandFrames, Matches;
    SessionIsExplained(turns, config);
    LiveIffGreeted(turns, config);
    var s := After(turns, config);
    if w, n :| 0 <= w < n <= |turns| && ExplainedLive(turns, config, s, w, n) {
      LiveDelivers(turns, config, s, w, n);
    } else {
      NothingDelivered();
      if s.log != [] { CommandOfOne(s.log[0]); }
    }
  }

  /// In a waiting session a frame is greeted if and only if `Opens` holds of it.
  lemma WelcomedIff(turn: Turn, config: Config)
    requires turn.what.Frame?
    ensures DecideFrame(AwaitingHello, turn.what.frame, config).Greet? <==> Opens(turn, config)
  {
  }
}
