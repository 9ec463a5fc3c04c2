/// Creating a fresh directory below a building under the least free of 999 names, and listing the
/// directories there.
module Rooms {
  import opened Text
  import opened Addresses

  const SUFFIX_LIMIT: nat := 999
  const SESSION_NAME_MAX: nat := 64
  const ARCHIVE_DIR := "Archive"

  // ------------------------------------------------------------ the directory

  /// A path below the city root, segment by segment; the root itself is the empty path.
  type Path = seq<string>

  /// What the city's directory holds. `denied` are the paths that cannot be created for a reason of
  /// the machine's own: permissions, a full disk.
  datatype Disk = Disk(dirs: set<Path>, files: set<Path>, denied: set<Path>) {
    predicate Taken(p: Path) { p in dirs || p in files }

    /// The root is a directory, and whatever exists hangs below a directory.
    predicate Tree() {
      && [] in dirs && dirs !! files
      && forall p | p in dirs + files :: p == [] || p[..|p| - 1] in dirs
    }

    function With(p: Path): Disk { this.(dirs := dirs + {p}) }
  }

  datatype Outcome = Done | AlreadyExists | Failed

  /// `fs::create_dir` where the parent is a directory.
  function MakeDir(d: Disk, p: Path): (Disk, Outcome) {
    if d.Taken(p) then (d, AlreadyExists)
    else if p in d.denied then (d, Failed)
    else (d.With(p), Done)
  }

  /// `fs::create_dir_all`: a file in the place of the last directory exists already, a file further
  /// up is not a directory.
  function MakeDirs(d: Disk, p: Path): (Disk, Outcome) {
    if p == [] || p in d.dirs then (d, Done)
    else if p in d.files then (d, AlreadyExists)
    else
      var (above, outcome) := MakeDirs(d, p[..|p| - 1]);
      if outcome.Done? then MakeDir(above, p) else (above, Failed)
  }

  function Prefixes(p: Path): set<Path> {
    set k | 0 <= k <= |p| :: p[..k]
  }

  /// A directory stands at this path, or one can be made there.
  predicate Makeable(d: Disk, p: Path) {
    p in d.dirs || (p !in d.files && p !in d.denied)
  }

  /// Making directories keeps the tree and adds missing prefixes and nothing else, all of them where
  /// it succeeds.
  lemma {:induction false} MakeDirsAddsPrefixes(d: Disk, p: Path)
    requires d.Tree()
    ensures
      var (after, outcome) := MakeDirs(d, p);
      && after.Tree() && after.files == d.files && after.denied == d.denied
      && d.dirs <= after.dirs <= d.dirs + Prefixes(p)
      && (outcome.Done? ==> Prefixes(p) <= after.dirs)
  {
    hide Prefixes;
    if p == [] || p in d.dirs {
      PrefixesExist(d, p);
    } else if p !in d.files {
      var up := p[..|p| - 1];
      MakeDirsAddsPrefixes(d, up);
      PrefixesGrow(p);
      WholeIsPrefix(up);
    }
  }

  /// It finds the path taken exactly where a file stands there, which leaves the disk as it was, and
  /// succeeds exactly where a directory stands or can be made at every prefix.
  lemma {:induction false} MakeDirsOutcome(d: Disk, p: Path)
    requires d.Tree()
    ensures
      var (after, outcome) := MakeDirs(d, p);
      && (outcome.AlreadyExists? <==> p in d.files)
      && (outcome.AlreadyExists? ==> after == d)
      && (outcome.Done? <==> forall x | x in Prefixes(p) :: Makeable(d, x))
  {
    hide Prefixes;
    WholeIsPrefix(p);
    if p == [] || p in d.dirs {
      PrefixesExist(d, p);
    } else if p !in d.files {
      var up := p[..|p| - 1];
      MakeDirsOutcome(d, up);
      MakeDirsAddsPrefixes(d, up);
      PrefixesGrow(p);
      PrefixesAreShort(up);
    }
  }

  lemma PrefixesGrow(p: Path)
    requires p != []
    ensures Prefixes(p) == Prefixes(p[..|p| - 1]) + {p}
  {
    var up := p[..|p| - 1];
    assert p[..|p|] == p;
    forall x | x in Prefixes(p)
      ensures x in Prefixes(up) + {p}
    {
      var k :| 0 <= k <= |p| && x == p[..k];
      if k < |p| { assert up[..k] == x; }
    }
    forall x | x in Prefixes(up)
      ensures x in Prefixes(p)
    {
      var k :| 0 <= k <= |up| && x == up[..k];
      assert p[..k] == x;
    }
  }

  lemma {:induction false} PrefixesExist(d: Disk, p: Path)
    requires d.Tree() && p in d.dirs
    ensures Prefixes(p) <= d.dirs
  {
    if p == [] {
      forall x | x in Prefixes(p)
        ensures x == []
      {
      }
    } else {
      PrefixesExist(d, p[..|p| - 1]);
      PrefixesGrow(p);
    }
  }

  // -------------------------------------------------------------------- names

  /// The trimmed text, where it is one segment of at most 64 characters and not the reserved one.
  function SessionName(raw: string): Option<string> {
    var trimmed := Trim(raw);
    if trimmed == "" || |trimmed| > SESSION_NAME_MAX then None
    else if trimmed == "." || trimmed == ".." || trimmed == RESERVED_PREFIX then None
    else if '/' in trimmed || Parse(trimmed).None? then None
    else Some(trimmed)
  }

  function Suffixed(name: string, attempt: nat): string {
    if attempt == 1 then name else name + "-" + Decimal(attempt)
  }

  function Candidate(building: string, name: string, attempt: nat): string {
    building + "/" + Suffixed(name, attempt)
  }

  function Above(p: Path): Path
    requires p != []
  {
    p[..|p| - 1]
  }

  // --------------------------------------------------------------------- open

  datatype Refusal = InvalidArgs | StorageFatal

  /// Makes the directories above a place, and then the place itself, which must not exist.
  function Attempt(d: Disk, place: Path): (Disk, Outcome)
    requires place != []
  {
    var (made, outcome) := MakeDirs(d, Above(place));
    if outcome.Done? then MakeDir(made, place) else (made, outcome)
  }

  function Tried(d: Disk, building: string, name: string, attempt: nat): (Disk, Result<string, Refusal>)
    decreases SUFFIX_LIMIT + 1 - attempt
  {
    if attempt > SUFFIX_LIMIT then (d, Err(InvalidArgs))
    else
      match Parse(Candidate(building, name, attempt))
      case None => (d, Err(InvalidArgs))
      case Some(addr) =>
        var (after, outcome) := Attempt(d, Segments(addr));
        match outcome
        case Done => (after, Ok(addr))
        case AlreadyExists => Tried(after, building, name, attempt + 1)
        case Failed => (after, Err(StorageFatal))
  }

  function Opened(d: Disk, building: string, name: string): (Disk, Result<string, Refusal>) {
    Tried(d, building, name, 1)
  }

  class CityDirectory {
    var disk: Disk

    constructor (disk: Disk)
      ensures this.disk == disk
    {
      this.disk := disk;
    }

    method TryToMake(place: Path) returns (outcome: Outcome)
      requires place != []
      modifies this
      ensures (disk, outcome) == Attempt(old(disk), place)
    {
      var made := MakeDirs(disk, Above(place));
      disk, outcome := made.0, made.1;
      if outcome.Done? {
        made := MakeDir(disk, place);
        disk, outcome := made.0, made.1;
      }
    }

    method Open(building: string, name: string) returns (room: Result<string, Refusal>)
      modifies this
      ensures (disk, room) == Opened(old(disk), building, name)
    {
      hide Candidate, Attempt, Parse;
      for attempt := 1 to SUFFIX_LIMIT + 1
        invariant Tried(disk, building, name, attempt) == Opened(old(disk), building, name)
      {
        var candidate := Candidate(building, name, attempt);
        var addr := Parse(candidate);
        if addr.None? { return Err(InvalidArgs); }
        var outcome := TryToMake(Segments(addr.value));
        match outcome
        case Done => return Ok(addr.value);
        case AlreadyExists =>
        case Failed => return Err(StorageFatal);
      }
      return Err(InvalidArgs);
    }
  }

  // -------------------------------------------------------- names are segments

  /// One canonical segment that is not the reserved one.
  predicate OneName(name: string) {
    Canonical(name) && '/' !in name && name != RESERVED_PREFIX
  }

  lemma SessionNamesAreOneName(raw: string)
    requires SessionName(raw).Some?
    ensures OneName(SessionName(raw).value)
  {
  }

  lemma PlainIsOneName(word: string)
    requires word != "" && word != "." && word != ".." && word != RESERVED_PREFIX
    requires forall c | c in word :: !IsControl(c) && c != '/' && c != '\\' && c != ':'
    ensures OneName(word)
  {
    PlainWord(word);
  }

  lemma SuffixIsPlain(attempt: nat)
    ensures
      forall c | c in "-" + Decimal(attempt) :: !IsControl(c) && c != '/' && c != '\\' && c != ':'
  {
    forall c | c in "-" + Decimal(attempt)
      ensures !IsControl(c) && c != '/' && c != '\\' && c != ':'
    {
      assert c == '-' || c in Decimal(attempt);
    }
  }

  /// A suffixed name is one canonical segment and not the reserved one; only its length is unbounded.
  lemma WordsAreOneName(name: string, attempt: nat)
    requires OneName(name)
    ensures OneName(Suffixed(name, attempt)) && name != [] && Suffixed(name, attempt)[0] == name[0]
  {
    if attempt != 1 {
      var word, suffix := Suffixed(name, attempt), "-" + Decimal(attempt);
      SuffixIsPlain(attempt);
      assert word == name + suffix;
      hide IsControl, Decimal, Segments;
      forall c | c in word
        ensures !IsControl(c) && c != '/' && c != '\\' && c != ':'
      {
        assert c in name || c in suffix;
      }
      assert word[|name|] == '-' && |word| >= |name| + 2;
      assert word != "." && word != "..";
      assert Decimal(attempt)[|Decimal(attempt)| - 1] in Decimal(attempt);
      assert IsDigit(word[|word| - 1]);
      assert !IsDigit(RESERVED_PREFIX[|RESERVED_PREFIX| - 1]);
      PlainIsOneName(word);
    }
  }

  lemma CanonicalBelow(left: string, word: string)
    requires Canonical(left) && OneName(word)
    ensures Canonical(left + "/" + word)
    ensures Segments(left + "/" + word) == Segments(left) + [word]
  {
    SegmentsOfJoin(left, word);
    OneSegment(word);
    assert !IsControl('/');
    hide Segments, IsControl;
    var s := left + "/" + word;
    forall c | c in s
      ensures !IsControl(c) && c != '\\' && c != ':'
    {
      assert c in left || c == '/' || c in word;
    }
    assert s[0] == left[0];
  }

  lemma CandidatePlace(building: string, name: string, attempt: nat)
    requires Canonical(building) && OneName(name)
    ensures Parse(Candidate(building, name, attempt)) == Some(Candidate(building, name, attempt))
    ensures
      Segments(Candidate(building, name, attempt)) == Segments(building) + [Suffixed(name, attempt)]
  {
    hide Canonical, Suffixed, Segments, OneName;
    WordsAreOneName(name, attempt);
    CanonicalBelow(building, Suffixed(name, attempt));
  }

  // ------------------------------------------------------------ the least free name

  function PlaceOf(building: string, name: string, attempt: nat): (place: Path)
    ensures place != []
  {
    Segments(building) + [Suffixed(name, attempt)]
  }

  /// The least attempt from this one on whose place is free, or one past the limit.
  function LeastFree(d: Disk, building: string, name: string, attempt: nat): (n: nat)
    requires attempt <= SUFFIX_LIMIT + 1
    ensures attempt <= n <= SUFFIX_LIMIT + 1
    ensures forall m | attempt <= m < n :: d.Taken(PlaceOf(building, name, m))
    ensures n <= SUFFIX_LIMIT ==> !d.Taken(PlaceOf(building, name, n))
    decreases SUFFIX_LIMIT + 1 - attempt
  {
    if attempt > SUFFIX_LIMIT || !d.Taken(PlaceOf(building, name, attempt)) then attempt
    else LeastFree(d, building, name, attempt + 1)
  }

  lemma {:induction false} TriedTakesTheLeastFree(
    d: Disk, building: string, name: string, attempt: nat)
    requires Canonical(building) && OneName(name) && Segments(building) in d.dirs
    requires attempt <= SUFFIX_LIMIT + 1
    ensures
      var n := LeastFree(d, building, name, attempt);
      Tried(d, building, name, attempt)
      == if n > SUFFIX_LIMIT then (d, Err(InvalidArgs))
         else if PlaceOf(building, name, n) in d.denied then (d, Err(StorageFatal))
         else (d.With(PlaceOf(building, name, n)), Ok(Candidate(building, name, n)))
    decreases SUFFIX_LIMIT + 1 - attempt
  {
    hide Canonical, OneName, Segments, Candidate, Suffixed, Parse;
    if attempt <= SUFFIX_LIMIT {
      CandidatePlace(building, name, attempt);
      assert Above(PlaceOf(building, name, attempt)) == Segments(building);
      if d.Taken(PlaceOf(building, name, attempt)) {
        TriedTakesTheLeastFree(d, building, name, attempt + 1);
      }
    }
  }

  lemma AttemptOnceMade(d: Disk, building: string, name: string)
    requires Canonical(building) && OneName(name)
    requires MakeDirs(d, Segments(building)).1.Done?
    requires Segments(building) in MakeDirs(d, Segments(building)).0.dirs
    ensures Opened(d, building, name) == Opened(MakeDirs(d, Segments(building)).0, building, name)
  {
    hide Canonical, OneName, Segments, Candidate, Suffixed, Parse;
    CandidatePlace(building, name, 1);
    var place := PlaceOf(building, name, 1);
    assert Above(place) == Segments(building);
    var made := MakeDirs(d, Segments(building)).0;
    assert Attempt(d, place) == Attempt(made, place) == MakeDir(made, place);
  }

  lemma {:induction false} SameLeastFree(
    d: Disk, made: Disk, building: string, name: string, attempt: nat)
    requires attempt <= SUFFIX_LIMIT + 1
    requires d.dirs <= made.dirs <= d.dirs + Prefixes(Segments(building)) && d.files == made.files
    ensures LeastFree(d, building, name, attempt) == LeastFree(made, building, name, attempt)
    decreases SUFFIX_LIMIT + 1 - attempt
  {
    hide Segments, Suffixed;
    if attempt <= SUFFIX_LIMIT {
      SameLeastFree(d, made, building, name, attempt + 1);
      assert PlaceOf(building, name, attempt) !in Prefixes(Segments(building));
    }
  }

  lemma {:induction false} BlockedBuilding(d: Disk, building: string, name: string, attempt: nat)
    requires d.Tree() && Canonical(building) && OneName(name) && 1 <= attempt <= SUFFIX_LIMIT + 1
    requires !MakeDirs(d, Segments(building)).1.Done?
    ensures
      var (made, outcome) := MakeDirs(d, Segments(building));
      Tried(d, building, name, attempt)
      == if outcome.AlreadyExists? || attempt > SUFFIX_LIMIT then (d, Err(InvalidArgs))
         else (made, Err(StorageFatal))
    decreases SUFFIX_LIMIT + 1 - attempt
  {
    hide Canonical, OneName, Segments, Candidate, Suffixed, Parse, Prefixes;
    if attempt <= SUFFIX_LIMIT {
      BlockedBuilding(d, building, name, attempt + 1);
      CandidatePlace(building, name, attempt);
      assert Above(PlaceOf(building, name, attempt)) == Segments(building);
      MakeDirsAddsPrefixes(d, Segments(building));
      MakeDirsOutcome(d, Segments(building));
    }
  }

  lemma OpenedByMakeDirs(d: Disk, building: string, name: string)
    requires d.Tree() && Canonical(building) && OneName(name)
    ensures
      var (after, room) := Opened(d, building, name);
      var (made, outcome) := MakeDirs(d, Segments(building));
      var n := LeastFree(d, building, name, 1);
      match outcome
      case AlreadyExists => after == d && room == Err(InvalidArgs)
      case Failed => after == made && room == Err(StorageFatal)
      case Done =>
        if n > SUFFIX_LIMIT then after == d && room == Err(InvalidArgs)
        else if PlaceOf(building, name, n) in d.denied then after == made && room == Err(StorageFatal)
        else
          && room == Ok(Candidate(building, name, n))
          && after == d.(dirs := d.dirs + Prefixes(PlaceOf(building, name, n)))
  {
    hide Canonical, OneName, Segments, Candidate, Suffixed, Parse, Prefixes;
    var (made, outcome) := MakeDirs(d, Segments(building));
    MakeDirsAddsPrefixes(d, Segments(building));
    MakeDirsOutcome(d, Segments(building));
    if outcome.Done? {
      assert Segments(building) in made.dirs by { PrefixesGrow(Segments(building)); }
      AttemptOnceMade(d, building, name);
      TriedTakesTheLeastFree(made, building, name, 1);
      SameLeastFree(d, made, building, name, 1);
      MadeOnDisk(d, building, name);
    } else {
      BlockedBuilding(d, building, name, 1);
    }
  }

  /// `Open` takes the least free name among the word and its suffixes 2 to 999, and adds that
  /// directory and the missing ones above it. It leaves the disk as it was where a file stands in the
  /// building's place, and where all 999 are taken; and it fails for a reason of the machine's own
  /// where a directory above the room cannot be made, or the room itself.
  lemma OpenTakesTheLeastFree(d: Disk, building: string, name: string)
    requires d.Tree() && Canonical(building) && OneName(name)
    ensures
      var (after, room) := Opened(d, building, name);
      var n := LeastFree(d, building, name, 1);
      if Segments(building) in d.files then after == d && room == Err(InvalidArgs)
      else if exists x | x in Prefixes(Segments(building)) :: !Makeable(d, x) then
        && room == Err(StorageFatal) && after.files == d.files
        && d.dirs <= after.dirs <= d.dirs + Prefixes(Segments(building))
      else if n > SUFFIX_LIMIT then after == d && room == Err(InvalidArgs)
      else if PlaceOf(building, name, n) in d.denied then
        && room == Err(StorageFatal)
        && after == d.(dirs := d.dirs + Prefixes(Segments(building)))
      else
        && room == Ok(Candidate(building, name, n))
        && after == d.(dirs := d.dirs + Prefixes(PlaceOf(building, name, n)))
  {
    hide Canonical, OneName, Segments, Candidate, Suffixed, Prefixes, Opened, MakeDirs, LeastFree, Makeable;
    OpenedByMakeDirs(d, building, name);
    MakeDirsAddsPrefixes(d, Segments(building));
    MakeDirsOutcome(d, Segments(building));
  }

  lemma MadeOnDisk(d: Disk, building: string, name: string)
    requires d.Tree() && MakeDirs(d, Segments(building)).1.Done?
    ensures
      var made := MakeDirs(d, Segments(building)).0;
      var n := LeastFree(d, building, name, 1);
      if n > SUFFIX_LIMIT then made == d
      else
        var place := PlaceOf(building, name, n);
        made.With(place) == d.(dirs := d.dirs + Prefixes(place))
  {
    hide Segments, Suffixed, Prefixes;
    var n := LeastFree(d, building, name, 1);
    MakeDirsAddsPrefixes(d, Segments(building));
    MakeDirsOutcome(d, Segments(building));
    if n > SUFFIX_LIMIT {
      var first := PlaceOf(building, name, 1);
      assert d.Taken(first) && first[..|first| - 1] == Segments(building);
    } else {
      var place := PlaceOf(building, name, n);
      assert Above(place) == Segments(building);
      PrefixesGrow(place);
    }
  }

  // ------------------------------------------------------------------ histories

  datatype Request = Request(building: string, name: string)

  /// Sessions opened one after another, each on the disk `before` it. Between two of them anybody
  /// may add to the disk.
  ghost predicate History(before: seq<Disk>, asked: seq<Request>) {
    && |before| == |asked|
    && (forall i | 0 <= i < |asked| ::
      before[i].Tree() && Canonical(asked[i].building) && OneName(asked[i].name))
    && (forall i | 0 < i < |asked| :: KeptBy(before, asked, i))
  }

  ghost predicate KeptBy(before: seq<Disk>, asked: seq<Request>, i: int)
    requires 0 < i < |asked| <= |before|
  {
    Opened(before[i - 1], asked[i - 1].building, asked[i - 1].name).0.dirs <= before[i].dirs
  }

  function RoomOf(before: seq<Disk>, asked: seq<Request>, i: nat): Result<string, Refusal>
    requires i < |asked| <= |before|
  {
    Opened(before[i], asked[i].building, asked[i].name).1
  }

  /// The room a session is given was free before and is its directory afterwards; nothing is lost.
  lemma OpenedRoomIsNew(d: Disk, building: string, name: string)
    requires d.Tree() && Canonical(building) && OneName(name)
    ensures
      var (after, room) := Opened(d, building, name);
      && after.Tree() && d.dirs <= after.dirs && after.files == d.files
      && (room.Ok? ==> !d.Taken(Segments(room.value)) && Segments(room.value) in after.dirs)
      && (room.Ok? ==> Above(Segments(room.value)) == Segments(building))
  {
    hide Canonical, OneName, Segments, Candidate, Suffixed, Parse, Prefixes, Opened, LeastFree, MakeDirs;
    OpenedByMakeDirs(d, building, name);
    MakeDirsAddsPrefixes(d, Segments(building));
    MakeDirsOutcome(d, Segments(building));
    var (made, outcome) := MakeDirs(d, Segments(building));
    var n := LeastFree(d, building, name, 1);
    if outcome.Done? && n <= SUFFIX_LIMIT {
      CandidatePlace(building, name, n);
      RoomOnDisk(d, made, PlaceOf(building, name, n));
    }
  }

  lemma RoomOnDisk(d: Disk, made: Disk, place: Path)
    requires place != [] && d.Tree() && made.Tree() && made.files == d.files && !d.Taken(place)
    requires d.dirs <= made.dirs <= d.dirs + Prefixes(Above(place)) && Prefixes(Above(place)) <= made.dirs
    ensures d.(dirs := d.dirs + Prefixes(place)).Tree() && place in Prefixes(place)
  {
    hide Prefixes;
    var after := d.(dirs := d.dirs + Prefixes(place));
    PrefixesGrow(place);
    assert after.dirs == made.dirs + {place};
    assert Above(place) in Prefixes(Above(place)) by { WholeIsPrefix(Above(place)); }
  }

  lemma WholeIsPrefix(p: Path)
    ensures p in Prefixes(p)
  {
    assert p[..|p|] == p;
  }

  lemma {:induction false} DirectoriesStay(before: seq<Disk>, asked: seq<Request>, i: nat, j: nat)
    requires History(before, asked) && i < j < |asked|
    ensures Opened(before[i], asked[i].building, asked[i].name).0.dirs <= before[j].dirs
    decreases j
  {
    hide Opened, Canonical, OneName;
    assert KeptBy(before, asked, j);
    if i < j - 1 {
      DirectoriesStay(before, asked, i, j - 1);
      OpenedRoomIsNew(before[j - 1], asked[j - 1].building, asked[j - 1].name);
    }
  }

  /// No two sessions ever share a room, whatever words they chose and whatever came between.
  lemma NoTwoSessionsShareARoom(before: seq<Disk>, asked: seq<Request>, i: nat, j: nat)
    requires History(before, asked) && i < j < |asked|
    requires RoomOf(before, asked, i).Ok? && RoomOf(before, asked, j).Ok?
    ensures RoomOf(before, asked, i).value != RoomOf(before, asked, j).value
  {
    hide Opened, Canonical, OneName;
    OpenedRoomIsNew(before[i], asked[i].building, asked[i].name);
    OpenedRoomIsNew(before[j], asked[j].building, asked[j].name);
    DirectoriesStay(before, asked, i, j);
  }

  // ------------------------------------------------------------------- listing

  /// The addresses of the directories `IsListed` holds of.
  function All(d: Disk, building: string): set<string> {
    set p | p in d.dirs && IsListed(p, building) :: building + "/" + p[|p| - 1]
  }

  predicate IsListed(p: Path, building: string) {
    && |p| == |Segments(building)| + 1
    && Above(p) == Segments(building)
    && !StartsWith(p[|p| - 1], ".") && p[|p| - 1] != ARCHIVE_DIR
    && Parse(building + "/" + p[|p| - 1]).Some?
  }

  /// Where a directory is made directly below a building, the listing gains its address or nothing.
  lemma ListingGains(d: Disk, building: string, place: Path)
    requires place != [] && Above(place) == Segments(building)
    requires Parse(building + "/" + place[|place| - 1]).Some?
    ensures
      var after := d.(dirs := d.dirs + Prefixes(place));
      var listed := !StartsWith(place[|place| - 1], ".") && place[|place| - 1] != ARCHIVE_DIR;
      All(after, building)
      == All(d, building) + (if listed then {building + "/" + place[|place| - 1]} else {})
  {
    hide Segments, Parse, Prefixes, StartsWith;
    var after := d.(dirs := d.dirs + Prefixes(place));
    PrefixesGrow(place);
    PrefixesAreShort(Segments(building));
    assert IsListed(place, building)
      <==> !StartsWith(place[|place| - 1], ".") && place[|place| - 1] != ARCHIVE_DIR;
    forall p | IsListed(p, building)
      ensures p in after.dirs <==> p in d.dirs || p == place
    {
      assert |p| == |place|;
    }
  }

  /// The least free name is the archive's exactly where the session is called so and the archive has
  /// no directory yet.
  lemma ArchiveNameIff(d: Disk, building: string, name: string)
    requires LeastFree(d, building, name, 1) <= SUFFIX_LIMIT
    ensures
      Suffixed(name, LeastFree(d, building, name, 1)) == ARCHIVE_DIR
      <==> name == ARCHIVE_DIR && !d.Taken(Segments(building) + [ARCHIVE_DIR])
  {
    hide Segments, LeastFree;
    var n := LeastFree(d, building, name, 1);
    assert PlaceOf(building, name, 1) == Segments(building) + [name];
    if n == 1 {
      assert !d.Taken(PlaceOf(building, name, 1));
    } else {
      assert d.Taken(PlaceOf(building, name, 1));
      SuffixedEndsInADigit(name, n);
      assert !IsDigit(ARCHIVE_DIR[|ARCHIVE_DIR| - 1]);
    }
  }

  lemma SuffixedEndsInADigit(name: string, attempt: nat)
    requires attempt != 1
    ensures var word := Suffixed(name, attempt); word != "" && IsDigit(word[|word| - 1])
  {
    assert Decimal(attempt)[|Decimal(attempt)| - 1] in Decimal(attempt);
  }

  /// An opened room joins the listing exactly when its session's name does not begin with a dot and
  /// is not the archive's while the archive has no directory. No other room appears or disappears.
  lemma OpenedRoomIsListedIff(d: Disk, building: string, name: string)
    requires d.Tree() && Canonical(building) && OneName(name)
    requires Opened(d, building, name).1.Ok?
    ensures
      var (after, room) := Opened(d, building, name);
      var listed :=
        && name[0] != '.'
        && !(name == ARCHIVE_DIR && !d.Taken(Segments(building) + [ARCHIVE_DIR]));
      All(after, building) == All(d, building) + (if listed then {room.value} else {})
  {
    hide Canonical, OneName, Segments, Prefixes, Opened, Suffixed, LeastFree, All, Makeable, Parse;
    OpenTakesTheLeastFree(d, building, name);
    var n := LeastFree(d, building, name, 1);
    var place, word := PlaceOf(building, name, n), Suffixed(name, n);
    CandidatePlace(building, name, n);
    WordsAreOneName(name, n);
    NamesAreNotEmpty(word);
    NamesAreNotEmpty(name);
    assert Above(place) == Segments(building) && place[|place| - 1] == word;
    ListingGains(d, building, place);
    ArchiveNameIff(d, building, name);
  }

  lemma NamesAreNotEmpty(word: string)
    requires OneName(word)
    ensures word != ""
  {
  }

  lemma PrefixesAreShort(p: Path)
    ensures forall x | x in Prefixes(p) :: |x| <= |p|
  {
  }

  lemma DotNamesAreAccepted()
    ensures SessionName(".notes") == Some(".notes") && OneName(".notes")
  {
    hide Canonical, Segments, Trim;
    PlainIsOneName(".notes");
    TrimIsIdentity(".notes");
  }

  lemma LabIsCanonical()
    ensures Canonical("lab") && Segments("lab") == ["lab"]
  {
    PlainIsOneName("lab");
    OneSegment("lab");
  }

  /// On a disk with one empty building: `.notes` is a session name, opens `lab/.notes`, and leaves the
  /// listing empty.
  lemma DotSessionsAreUnlisted()
    ensures SessionName(".notes") == Some(".notes")
    ensures
      var (after, room) := Opened(Disk({[], ["lab"]}, {}, {}), "lab", ".notes");
      room == Ok("lab/.notes") && All(after, "lab") == {}
  {
    hide Canonical, Segments, OneName, SessionName, Opened, MakeDirs;
    var d := Disk({[], ["lab"]}, {}, {});
    DotNamesAreAccepted();
    LabIsCanonical();
    assert ["lab"][..0] == [];
    assert d.Tree();
    assert forall x | x in Prefixes(["lab"]) :: Makeable(d, x) by { hide *; LabIsMakeable(); }
    NotesIsFree(d);
    hide LeastFree, Candidate, PlaceOf, All, Prefixes, Makeable;
    OpenTakesTheLeastFree(d, "lab", ".notes");
    OpenedRoomIsListedIff(d, "lab", ".notes");
  }

  lemma NotesIsFree(d: Disk)
    requires d == Disk({[], ["lab"]}, {}, {})
    ensures Candidate("lab", ".notes", 1) == "lab/.notes"
    ensures LeastFree(d, "lab", ".notes", 1) == 1
    ensures PlaceOf("lab", ".notes", 1) !in d.denied && All(d, "lab") == {}
  {
    hide LeastFree;
    LabIsCanonical();
    assert |PlaceOf("lab", ".notes", 1)| == 2;
    assert !d.Taken(PlaceOf("lab", ".notes", 1));
  }

  lemma LabIsMakeable()
    ensures forall x | x in Prefixes(["lab"]) :: Makeable(Disk({[], ["lab"]}, {}, {}), x)
  {
    assert ["lab"][..0] == [] && ["lab"][..1] == ["lab"];
  }

  /// Where a file is called `lab`, a session below it is refused although its first name is free.
  lemma FileBuildingIsRefused()
    ensures
      var d := Disk({[]}, {["lab"]}, {});
      && d.Tree() && LeastFree(d, "lab", "notes", 1) == 1
      && Opened(d, "lab", "notes") == (d, Err(InvalidArgs))
  {
    var d := Disk({[]}, {["lab"]}, {});
    LabIsCanonical();
    PlainIsOneName("notes");
    assert ["lab"][..0] == [];
    assert !d.Taken(PlaceOf("lab", "notes", 1));
    hide Canonical, Segments, OneName, Opened, Prefixes, Makeable;
    OpenTakesTheLeastFree(d, "lab", "notes");
  }

  // ---------------------------------------------------------- sessions side by side

  /// A session being opened: which attempt it is at, whether that attempt has made the directories
  /// above its room, and what it was answered.
  datatype Opening = Opening(
    building: string, name: string, attempt: nat, made: bool, answer: Option<Result<string, Refusal>>)

  function Begun(building: string, name: string): Opening {
    Opening(building, name, 1, false, None)
  }

  /// One call of the file system on behalf of one session.
  function Call(d: Disk, o: Opening): (Disk, Opening) {
    if o.answer.Some? then (d, o)
    else if o.attempt > SUFFIX_LIMIT then (d, o.(answer := Some(Err(InvalidArgs))))
    else
      match Parse(Candidate(o.building, o.name, o.attempt))
      case None => (d, o.(answer := Some(Err(InvalidArgs))))
      case Some(addr) =>
        var (after, outcome) :=
          if o.made then MakeDir(d, Segments(addr)) else MakeDirs(d, Above(Segments(addr)));
        match outcome
        case Done => (after, if o.made then o.(answer := Some(Ok(addr))) else o.(made := true))
        case AlreadyExists => (after, o.(attempt := o.attempt + 1, made := false))
        case Failed => (after, o.(answer := Some(Err(StorageFatal))))
  }

  /// The calls of one session with nothing in between.
  function Alone(d: Disk, o: Opening): (Disk, Opening)
    decreases o.answer.None?, SUFFIX_LIMIT + 1 - o.attempt, !o.made
  {
    if o.answer.Some? then (d, o)
    else
      var (after, next) := Call(d, o);
      Alone(after, next)
  }

  /// Undisturbed, the calls come to what `Open` does.
  lemma {:induction false} AloneOpens(d: Disk, o: Opening)
    requires o.answer.None? && !o.made
    ensures
      var (after, done) := Alone(d, o);
      done.answer.Some? && (after, done.answer.value) == Tried(d, o.building, o.name, o.attempt)
    decreases SUFFIX_LIMIT + 1 - o.attempt
  {
    hide Parse, Candidate, Segments, MakeDirs, MakeDir, Alone;
    AloneStep(d, o);
    var (d1, o1) := Call(d, o);
    AloneStep(d1, o1);
    if o1.answer.None? && !o1.made {
      AloneOpens(d1, o1);
    } else if o1.answer.None? {
      var (d2, o2) := Call(d1, o1);
      AloneStep(d2, o2);
      if o2.answer.None? { AloneOpens(d2, o2); }
    }
  }

  lemma AloneStep(d: Disk, o: Opening)
    ensures Alone(d, o) == if o.answer.Some? then (d, o) else Alone(Call(d, o).0, Call(d, o).1)
  {
    hide Call;
  }

  /// A disk and the sessions being opened on it.
  datatype Opens = Opens(disk: Disk, sessions: seq<Opening>)

  /// What happens next: a call of one of the sessions, or a directory that somebody else makes.
  datatype Move = Turn(session: nat) | Elsewhere(place: Path)

  function Moved(s: Opens, move: Move): Opens {
    match move
    case Turn(i) =>
      if i >= |s.sessions| then s
      else
        var (after, next) := Call(s.disk, s.sessions[i]);
        Opens(after, s.sessions[i := next])
    case Elsewhere(place) => s.(disk := MakeDirs(s.disk, place).0)
  }

  function Played(s: Opens, moves: seq<Move>): Opens {
    if moves == [] then s else Moved(Played(s, moves[..|moves| - 1]), moves[|moves| - 1])
  }

  predicate RoomIs(o: Opening, addr: string) {
    o.answer == Some(Ok(addr))
  }

  /// Every room that was given exists, and no two sessions were given one.
  ghost predicate Apart(s: Opens) {
    && (forall i, addr | 0 <= i < |s.sessions| && RoomIs(s.sessions[i], addr) :: Segments(addr) in s.disk.dirs)
    && (forall i, j, addr | 0 <= i < j < |s.sessions| && RoomIs(s.sessions[i], addr) ::
          !RoomIs(s.sessions[j], addr))
  }

  lemma {:induction false} DirsOnlyGrow(d: Disk, p: Path)
    ensures d.dirs <= MakeDirs(d, p).0.dirs
  {
    if p != [] { DirsOnlyGrow(d, p[..|p| - 1]); }
  }

  /// A call loses no directory, and gives no room but one that was free and now exists.
  lemma CallGivesAFreeRoom(d: Disk, o: Opening, addr: string)
    ensures d.dirs <= Call(d, o).0.dirs
    ensures RoomIs(o, addr) ==> RoomIs(Call(d, o).1, addr)
    ensures RoomIs(Call(d, o).1, addr) && !RoomIs(o, addr) ==>
      Segments(addr) !in d.dirs && Segments(addr) in Call(d, o).0.dirs
  {
    hide Parse, Candidate, Segments, MakeDirs;
    match Parse(Candidate(o.building, o.name, o.attempt))
    case None =>
    case Some(here) => DirsOnlyGrow(d, Above(Segments(here)));
  }

  lemma CallKeepsApart(s: Opens, i: nat)
    requires Apart(s) && i < |s.sessions|
    ensures Apart(Moved(s, Turn(i)))
  {
    hide Call, Segments;
    var after := Moved(s, Turn(i));
    forall k, addr | 0 <= k < |s.sessions|
      ensures RoomIs(after.sessions[k], addr) ==> Segments(addr) in after.disk.dirs
    {
      CallGivesAFreeRoom(s.disk, s.sessions[i], addr);
    }
    forall k, j, addr | 0 <= k < j < |s.sessions| && RoomIs(after.sessions[k], addr)
      ensures !RoomIs(after.sessions[j], addr)
    {
      CallGivesAFreeRoom(s.disk, s.sessions[i], addr);
    }
  }

  lemma {:induction false} PlayKeepsApart(s: Opens, moves: seq<Move>)
    requires Apart(s)
    ensures Apart(Played(s, moves))
  {
    hide Apart;
    if moves != [] {
      var before := Played(s, moves[..|moves| - 1]);
      PlayKeepsApart(s, moves[..|moves| - 1]);
      match moves[|moves| - 1]
      case Turn(i) => if i < |before.sessions| { CallKeepsApart(before, i); }
      case Elsewhere(place) => OthersKeepApart(before, place);
    }
  }

  lemma OthersKeepApart(s: Opens, place: Path)
    requires Apart(s)
    ensures Apart(Moved(s, Elsewhere(place)))
  {
    hide Segments, MakeDirs;
    DirsOnlyGrow(s.disk, place);
  }

  /// However the calls of any number of sessions are interleaved, and whatever else is made between
  /// them, no two sessions are given one room.
  lemma SimultaneousSessionsDiffer(s: Opens, moves: seq<Move>, i: nat, j: nat, addr: string)
    requires forall k | 0 <= k < |s.sessions| :: s.sessions[k].answer.None?
    requires i < j < |Played(s, moves).sessions|
    requires RoomIs(Played(s, moves).sessions[i], addr)
    ensures !RoomIs(Played(s, moves).sessions[j], addr)
    ensures Segments(addr) in Played(s, moves).disk.dirs
  {
    hide Segments;
    PlayKeepsApart(s, moves);
  }
}
