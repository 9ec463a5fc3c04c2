/// A hash-chained ledger in memory, the verification of its lines, and what its head says of them.
module MemLedger {
  import opened Text

  type Bytes = seq<bv8>
  type Hash = seq<bv8>

  const EVENT_LOG_V: nat := 1
  const FIRST: Word := 0
  const GENESIS_PREV: Hash := seq(32, _ => 0)

  datatype Draft = Draft(run: Bytes, t: Word, who: string, addr: Option<string>, kind: string, data: string, ig: bool)

  datatype Record = Record(v: nat, seqNo: Word, prev: Hash, draft: Draft)

  /// The fields verification reads off a line, and whether its kind is a known one.
  datatype Envelope = Envelope(v: nat, seqNo: Word, prev: Hash, known: bool, ig: bool)

  datatype EventRef = EventRef(seqNo: Word, kind: string)

  /// The byte producer, the two readers and the hash, all of them outside this module.
  datatype Codec = Codec(
    canonical: Record -> Option<Bytes>,
    parse: Bytes -> Option<Record>,
    envelope: Bytes -> Option<Envelope>,
    hash: Bytes -> Hash)

  /// The readers recover what the producer wrote. Nothing is assumed of the hash.
  ghost predicate Faithful(codec: Codec) {
    forall record | codec.canonical(record).Some? ::
      var line := codec.canonical(record).value;
      && codec.parse(line) == Some(record)
      && codec.envelope(line) ==
           Some(Envelope(record.v, record.seqNo, record.prev, true, record.draft.ig))
  }

  // ------------------------------------------------------------------ verifying

  datatype Fault =
    | NotALine | NewerVersion | ImpossibleVersion | BrokenChain | SeqGap
    | NotCanonical | UnknownKind | SeqExhausted

  predicate Canonical(codec: Codec, line: Bytes) {
    codec.parse(line).Some? && codec.canonical(codec.parse(line).value) == Some(line)
  }

  /// What is wrong with a line that should follow `prev` and carry the number `expected`.
  function LineFault(codec: Codec, line: Bytes, prev: Hash, expected: nat): Option<Fault> {
    match codec.envelope(line)
    case None => Some(NotALine)
    case Some(envelope) =>
      if envelope.v > EVENT_LOG_V then Some(NewerVersion)
      else if envelope.v != EVENT_LOG_V then Some(ImpossibleVersion)
      else if envelope.prev != prev then Some(BrokenChain)
      else if envelope.seqNo != expected then Some(SeqGap)
      else if envelope.known && !Canonical(codec, line) then Some(NotCanonical)
      else if !envelope.known && !envelope.ig then Some(UnknownKind)
      else if expected >= U64_MAX then Some(SeqExhausted)
      else None
  }

  /// What the line after these has to name as its predecessor.
  function Head(codec: Codec, lines: seq<Bytes>): Hash {
    if lines == [] then GENESIS_PREV else codec.hash(lines[|lines| - 1])
  }

  predicate Sound(codec: Codec, lines: seq<Bytes>, i: nat)
    requires i < |lines|
  {
    LineFault(codec, lines[i], Head(codec, lines[..i]), i) == None
  }

  ghost predicate Verifies(codec: Codec, lines: seq<Bytes>) {
    forall i | 0 <= i < |lines| :: Sound(codec, lines, i)
  }

  /// Replay's verification: every line in turn, refused at the first fault with its 1-based number.
  method VerifyLines(codec: Codec, lines: seq<Bytes>) returns (verdict: Result<nat, (nat, Fault)>)
    ensures verdict.Ok? <==> Verifies(codec, lines)
    ensures verdict.Ok? ==> verdict.value == |lines|
    ensures verdict.Err? ==>
      var (lineNo, fault) := verdict.error;
      && 1 <= lineNo <= |lines|
      && LineFault(codec, lines[lineNo - 1], Head(codec, lines[..lineNo - 1]), lineNo - 1) == Some(fault)
      && forall i | 0 <= i < lineNo - 1 :: Sound(codec, lines, i)
  {
    var prev, expected: Word, lineNo: nat := GENESIS_PREV, FIRST, 0;
    while lineNo < |lines|
      invariant lineNo <= |lines| && lineNo == expected
      invariant prev == Head(codec, lines[..lineNo])
      invariant forall i | 0 <= i < lineNo :: Sound(codec, lines, i)
    {
      var line := lines[lineNo];
      lineNo := lineNo + 1;
      match LineFault(codec, line, prev, expected)
      case Some(fault) =>
        assert !Sound(codec, lines, lineNo - 1);
        return Err((lineNo, fault));
      case None =>
        prev := codec.hash(line);
        expected := expected + 1;
    }
    return Ok(lineNo);
  }

  // ------------------------------------------------------------------ appending

  /// What an append leaves in the ledger: one line more, or the same lines when it is refused.
  function Extended(codec: Codec, lines: seq<Bytes>, draft: Draft): seq<Bytes> {
    if |lines| >= U64_MAX then lines
    else
      match codec.canonical(Record(EVENT_LOG_V, |lines|, Head(codec, lines), draft))
      case Some(line) => lines + [line]
      case None => lines
  }

  /// The lines a fresh ledger holds after these drafts, refused ones included.
  function Grown(codec: Codec, drafts: seq<Draft>): seq<Bytes> {
    if drafts == [] then []
    else Extended(codec, Grown(codec, drafts[..|drafts| - 1]), drafts[|drafts| - 1])
  }

  datatype Refusal = CannotSerialize | SequenceExhausted

  class MemLedger {
    const codec: Codec
    var lines: seq<Bytes>
    var nextSeq: Word
    var prev: Hash

    /// `prev` is promised only while the ledger can still grow: the append that runs out of
    /// numbers moves it and keeps no line.
    ghost predicate Valid()
      reads this
    {
      && nextSeq == |lines|
      && (nextSeq < U64_MAX ==> prev == Head(codec, lines))
      && Verifies(codec, lines)
    }

    constructor (codec: Codec)
      ensures Valid() && lines == [] && this.codec == codec
    {
      this.codec := codec;
      lines, nextSeq, prev := [], FIRST, GENESIS_PREV;
    }

    method Append(draft: Draft) returns (result: Result<EventRef, Refusal>)
      requires Valid() && Faithful(codec)
      modifies this
      ensures Valid()
      ensures lines == Extended(codec, old(lines), draft)
      ensures result.Ok? <==> |lines| == |old(lines)| + 1
      ensures result.Ok? ==>
        && result.value == EventRef(old(nextSeq), draft.kind)
        && prev == codec.hash(lines[|lines| - 1])
      ensures
        var line := codec.canonical(Record(EVENT_LOG_V, old(nextSeq), old(prev), draft));
        && (result == Err(CannotSerialize) <==> line.None?)
        && (result == Err(SequenceExhausted) <==> line.Some? && old(nextSeq) == U64_MAX)
        && prev == (if line.Some? then codec.hash(line.value) else old(prev))
      ensures old(prev) == Head(codec, old(lines)) ==>
        (prev == Head(codec, lines) <==> result != Err(SequenceExhausted) || prev == old(prev))
    {
      var record := Record(EVENT_LOG_V, nextSeq, prev, draft);
      var line := codec.canonical(record);
      if line.None? { return Err(CannotSerialize); }
      prev := codec.hash(line.value);
      if nextSeq == U64_MAX { return Err(SequenceExhausted); }
      ExtensionVerifies(codec, lines, draft);
      nextSeq := nextSeq + 1;
      lines := lines + [line.value];
      return Ok(EventRef(record.seqNo, draft.kind));
    }

    method RawLines() returns (raw: seq<Bytes>)
      ensures raw == lines
    {
      return lines;
    }
  }

  // -------------------------------------------------------- running out of numbers

  /// The line a full ledger is asked to append can be serialised, and its hash is not the head.
  ghost predicate HeadWillStray(codec: Codec, lines: seq<Bytes>, draft: Draft) {
    && |lines| == U64_MAX
    && var line := codec.canonical(Record(EVENT_LOG_V, U64_MAX, Head(codec, lines), draft));
       line.Some? && codec.hash(line.value) != Head(codec, lines)
  }

  const ANY_DRAFT: Draft := Draft([], 0, "", None, "", "", false)

  function Zeros(n: nat): (zeros: Bytes)
    ensures |zeros| == n
    ensures forall i | 0 <= i < n :: zeros[i] == 0
  {
    seq(n, _ => 0)
  }

  lemma ZerosAreCounted(line: Bytes, n: nat)
    requires |line| == n && forall i | 0 <= i < n :: line[i] == 0
    ensures line == Zeros(n)
  {
  }

  /// The record that has the number `n` where lines are written in unary and hashed to themselves.
  function UnaryRecord(n: Word): Record {
    Record(EVENT_LOG_V, n, Zeros(n + 32), ANY_DRAFT)
  }

  function ParseUnary(line: Bytes): Option<Record> {
    if 33 <= |line| <= U64_MAX + 33 && line == Zeros(|line|) then Some(UnaryRecord(|line| - 33)) else None
  }

  /// Writes the n-th record as n + 33 zeros and no other record at all.
  function UnaryCodec(): Codec {
    Codec(
      (record: Record) => if record == UnaryRecord(record.seqNo) then Some(Zeros(record.seqNo + 33)) else None,
      ParseUnary,
      (line: Bytes) =>
        match ParseUnary(line)
        case None => None
        case Some(record) => Some(Envelope(record.v, record.seqNo, record.prev, true, record.draft.ig)),
      (line: Bytes) => line)
  }

  lemma UnaryIsFaithful()
    ensures Faithful(UnaryCodec())
  {
    hide Zeros, ParseUnary, UnaryRecord;
    var codec := UnaryCodec();
    forall record | codec.canonical(record).Some?
      ensures
        var line := codec.canonical(record).value;
        && codec.parse(line) == Some(record)
        && codec.envelope(line) == Some(Envelope(record.v, record.seqNo, record.prev, true, record.draft.ig))
    {
      UnaryReads(record.seqNo);
    }
  }

  lemma UnaryReads(n: Word)
    ensures ParseUnary(Zeros(n + 33)) == Some(UnaryRecord(n))
  {
    hide Zeros, UnaryRecord;
  }

  lemma {:induction false} UnaryGrows(n: Word)
    ensures
      var lines := Grown(UnaryCodec(), seq(n, _ => ANY_DRAFT));
      |lines| == n && Head(UnaryCodec(), lines) == Zeros(n + 32)
  {
    hide Zeros, UnaryCodec, Extended;
    var drafts := seq(n, _ => ANY_DRAFT);
    if n == 0 {
      ZerosAreCounted(GENESIS_PREV, 32);
    } else {
      UnaryGrows(n - 1);
      assert drafts[..n - 1] == seq(n - 1, _ => ANY_DRAFT);
      UnaryExtends(Grown(UnaryCodec(), drafts[..n - 1]), n - 1);
    }
  }

  lemma UnaryExtends(lines: seq<Bytes>, n: Word)
    requires |lines| == n < U64_MAX && Head(UnaryCodec(), lines) == Zeros(n + 32)
    ensures
      var extended := Extended(UnaryCodec(), lines, ANY_DRAFT);
      |extended| == n + 1 && Head(UnaryCodec(), extended) == Zeros(n + 33)
  {
    hide Zeros, ParseUnary;
    assert Record(EVENT_LOG_V, n, Zeros(n + 32), ANY_DRAFT) == UnaryRecord(n);
  }

  /// A ledger can be filled by appends alone to the state in which the next one moves the head away
  /// from the lines.
  lemma FullLedgerLosesItsHead()
    ensures exists codec, drafts, draft ::
      Faithful(codec) && HeadWillStray(codec, Grown(codec, drafts), draft)
  {
    hide Grown;
    var drafts := seq(U64_MAX, _ => ANY_DRAFT);
    UnaryIsFaithful();
    UnaryGrows(U64_MAX);
    var lines := Grown(UnaryCodec(), drafts);
    assert |Zeros(U64_MAX + 33)| != |Head(UnaryCodec(), lines)|;
    assert HeadWillStray(UnaryCodec(), lines, ANY_DRAFT);
  }

  lemma SoundUnderAppend(codec: Codec, lines: seq<Bytes>, more: seq<Bytes>, i: nat)
    requires i < |lines|
    ensures Sound(codec, lines + more, i) <==> Sound(codec, lines, i)
  {
    hide LineFault, Head;
    assert (lines + more)[..i] == lines[..i];
  }

  lemma AppendedIsSound(codec: Codec, lines: seq<Bytes>, draft: Draft)
    requires Faithful(codec) && |lines| < U64_MAX
    requires codec.canonical(Record(EVENT_LOG_V, |lines|, Head(codec, lines), draft)).Some?
    ensures
      var line := codec.canonical(Record(EVENT_LOG_V, |lines|, Head(codec, lines), draft)).value;
      LineFault(codec, line, Head(codec, lines), |lines|) == None
  {
  }

  /// Appending keeps a verifying ledger verifying.
  lemma ExtensionVerifies(codec: Codec, lines: seq<Bytes>, draft: Draft)
    requires Faithful(codec) && Verifies(codec, lines)
    ensures Verifies(codec, Extended(codec, lines, draft))
  {
    var grown := Extended(codec, lines, draft);
    if grown != lines {
      AppendedIsSound(codec, lines, draft);
      assert grown[..|lines|] == lines;
      assert Sound(codec, grown, |lines|);
      forall i | 0 <= i < |lines|
        ensures Sound(codec, grown, i)
      {
        SoundUnderAppend(codec, lines, grown[|lines|..], i);
        assert grown == lines + grown[|lines|..];
      }
    }
  }

  /// Whatever is drafted, in whatever order, and whichever drafts are refused: the lines a ledger
  /// holds verify. In particular each carries its own index as number and the hash of the line
  /// before it, the first one the genesis hash.
  lemma {:induction false} EveryHistoryVerifies(codec: Codec, drafts: seq<Draft>)
    requires Faithful(codec)
    ensures Verifies(codec, Grown(codec, drafts))
  {
    if drafts != [] {
      var front := drafts[..|drafts| - 1];
      EveryHistoryVerifies(codec, front);
      ExtensionVerifies(codec, Grown(codec, front), drafts[|drafts| - 1]);
    }
  }

  lemma VerifyingLinesAreChained(codec: Codec, lines: seq<Bytes>, i: nat)
    requires Verifies(codec, lines) && i < |lines|
    ensures codec.envelope(lines[i]).Some?
    ensures codec.envelope(lines[i]).value.seqNo == FIRST + i
    ensures codec.envelope(lines[i]).value.prev == if i == 0 then GENESIS_PREV else codec.hash(lines[i - 1])
  {
    assert Sound(codec, lines, i);
  }

  // ------------------------------------------------------------ tamper evidence

  /// Two different lines with one hash.
  predicate Collide(codec: Codec, a: Bytes, b: Bytes) {
    a != b && codec.hash(a) == codec.hash(b)
  }

  lemma VerifyingPrefix(codec: Codec, lines: seq<Bytes>, n: nat)
    requires Verifies(codec, lines) && n <= |lines|
    ensures Verifies(codec, lines[..n])
  {
    forall i | 0 <= i < n
      ensures Sound(codec, lines[..n], i)
    {
      assert Sound(codec, lines, i);
      assert lines == lines[..n] + lines[n..];
      SoundUnderAppend(codec, lines[..n], lines[n..], i);
    }
  }

  /// The head hash fixes the whole history: two verifying histories that end in one hash are equal
  /// line for line, or the pair of them exhibits a collision of the hash.
  lemma {:induction false} HeadFixesHistory(codec: Codec, xs: seq<Bytes>, ys: seq<Bytes>)
    requires xs != [] && ys != [] && Verifies(codec, xs) && Verifies(codec, ys)
    requires Head(codec, xs) == Head(codec, ys)
    ensures xs == ys || exists i, j | 0 <= i < |xs| && 0 <= j < |ys| :: Collide(codec, xs[i], ys[j])
    decreases |xs|
  {
    var m, n := |xs| - 1, |ys| - 1;
    if xs[m] != ys[n] {
      assert Collide(codec, xs[m], ys[n]);
    } else {
      VerifyingLinesAreChained(codec, xs, m);
      VerifyingLinesAreChained(codec, ys, n);
      if m > 0 {
        VerifyingPrefix(codec, xs, m);
        VerifyingPrefix(codec, ys, n);
        var front, other := xs[..m], ys[..n];
        HeadFixesHistory(codec, front, other);
        if front == other {
          assert xs == front + [xs[m]] && ys == other + [ys[n]];
        } else {
          var i, j :| 0 <= i < |front| && 0 <= j < |other| && Collide(codec, front[i], other[j]);
          assert Collide(codec, xs[i], ys[j]);
        }
      }
    }
  }

  /// A line rewritten anywhere but at the end is noticed, at the latest by the line after it - or
  /// the forger has found a second line with the same hash.
  lemma RewritingIsNoticed(codec: Codec, lines: seq<Bytes>, i: nat, forged: Bytes)
    requires Verifies(codec, lines) && i + 1 < |lines| && forged != lines[i]
    requires !Collide(codec, lines[i], forged)
    ensures
      var rewritten := lines[i := forged];
      !Sound(codec, rewritten, i) || !Sound(codec, rewritten, i + 1)
  {
    var rewritten := lines[i := forged];
    VerifyingLinesAreChained(codec, lines, i + 1);
    assert rewritten[..i + 1][i] == forged;
    assert Head(codec, rewritten[..i + 1]) == codec.hash(forged);
  }
}
