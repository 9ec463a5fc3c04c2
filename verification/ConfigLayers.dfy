/// Configuration documents: what a document declares, how three writers change one, and which of up
/// to three documents decides each setting.
module ConfigLayers {
  import opened Text
  import opened Addresses

  const CONFIG_FILE := "CONFIG.toml"
  const SANDBOX_FUEL_DEFAULT: Word := 200_000_000
  const I64_MAX: Word := 0x7FFF_FFFF_FFFF_FFFF

  // ------------------------------------------------------------------ documents

  /// A TOML value; integers are signed 64-bit words.
  datatype Toml =
    | Text(text: string)
    | Flag(flag: bool)
    | Number(number: int)
    | List(items: seq<Toml>)
    | Table(table: map<string, Toml>)

  type Document = map<string, Toml>

  datatype Effort = NoThinking | Low | Medium | High | XHigh | Max

  datatype Limits = Limits(shell: bool, fuel: Word, mounts: seq<string>)

  datatype Transport =
    | Stdio(command: string, args: seq<string>)
    | Http(url: string, header: Option<string>)

  datatype Server = Server(name: string, transport: Transport)

  datatype Refusal =
    | Malformed
    | BadMount(mount: string)
    | ReservedMount(mount: string)
    | BadLabel(name: string)
    | TwoTransports(name: string)
    | NoTransport(name: string)
    | NamedTheSame(name: string)
    | NotASection
    | FuelTooLarge
    | NoBuilding
    | StorageFatal

  /// Three settings, each stated or not.
  datatype Layer = Layer(effort: Option<Effort>, sandbox: Option<Limits>, mcp: Option<seq<Server>>)

  const SILENT: Layer := Layer(None, None, None)

  // ------------------------------------------------------------ reading a document

  function Spelled(effort: Effort): string {
    match effort
    case NoThinking => "none"
    case Low => "low"
    case Medium => "medium"
    case High => "high"
    case XHigh => "xhigh"
    case Max => "max"
  }

  function EffortOf(spelling: string): Option<Effort> {
    if spelling == "none" then Some(NoThinking)
    else if spelling == "low" then Some(Low)
    else if spelling == "medium" then Some(Medium)
    else if spelling == "high" then Some(High)
    else if spelling == "xhigh" then Some(XHigh)
    else if spelling == "max" then Some(Max)
    else None
  }

  predicate AllText(items: seq<Toml>) {
    forall i | 0 <= i < |items| :: items[i].Text?
  }

  function TextsOf(items: seq<Toml>): (texts: seq<string>)
    requires AllText(items)
    ensures |texts| == |items| && forall i | 0 <= i < |items| :: items[i] == Text(texts[i])
  {
    seq(|items|, i requires 0 <= i < |items| => items[i].text)
  }

  function Texts(texts: seq<string>): (items: seq<Toml>)
    ensures |items| == |texts| && AllText(items)
    ensures forall i | 0 <= i < |texts| :: items[i] == Text(texts[i])
  {
    seq(|texts|, i requires 0 <= i < |texts| => Text(texts[i]))
  }

  function ReadModel(section: Toml): Option<Option<Effort>> {
    if !section.Table? || !(section.table.Keys <= {"effort"}) then None
    else if "effort" !in section.table then Some(None)
    else
      match section.table["effort"]
      case Text(spelling) =>
        var effort := EffortOf(spelling);
        if effort.Some? then Some(effort) else None
      case _ => None
  }

  datatype SandboxSection = SandboxSection(shell: bool, fuel: Option<Word>, mounts: seq<string>)

  function ReadSandbox(section: Toml): Option<SandboxSection> {
    if !section.Table? || !(section.table.Keys <= {"shell", "fuel", "mounts"}) then None
    else
      var t := section.table;
      if "shell" in t && !t["shell"].Flag? then None
      else if "fuel" in t && !(t["fuel"].Number? && 0 <= t["fuel"].number <= U64_MAX) then None
      else if "mounts" in t && !(t["mounts"].List? && AllText(t["mounts"].items)) then None
      else Some(SandboxSection(
        "shell" in t && t["shell"].flag,
        if "fuel" in t then Some(t["fuel"].number) else None,
        if "mounts" in t then TextsOf(t["mounts"].items) else []))
  }

  datatype Row = Row(
    name: string, command: Option<string>, args: seq<string>, url: Option<string>, header: Option<string>)

  predicate TextOrAbsent(t: map<string, Toml>, key: string) {
    key in t ==> t[key].Text?
  }

  function TextAt(t: map<string, Toml>, key: string): Option<string>
    requires TextOrAbsent(t, key)
  {
    if key in t then Some(t[key].text) else None
  }

  function ReadRow(entry: Toml): Option<Row> {
    if !entry.Table? || !(entry.table.Keys <= {"label", "command", "args", "url", "header"}) then None
    else
      var t := entry.table;
      if !TextOrAbsent(t, "label") || !TextOrAbsent(t, "command") then None
      else if !TextOrAbsent(t, "url") || !TextOrAbsent(t, "header") then None
      else if "label" !in t then None
      else if "args" in t && !(t["args"].List? && AllText(t["args"].items)) then None
      else Some(Row(
        t["label"].text,
        TextAt(t, "command"),
        if "args" in t then TextsOf(t["args"].items) else [],
        TextAt(t, "url"),
        TextAt(t, "header")))
  }

  predicate AllRows(entries: seq<Toml>) {
    forall i | 0 <= i < |entries| :: ReadRow(entries[i]).Some?
  }

  function RowsOf(entries: seq<Toml>): (rows: seq<Row>)
    requires AllRows(entries)
    ensures |rows| == |entries| && forall i | 0 <= i < |rows| :: ReadRow(entries[i]) == Some(rows[i])
  {
    seq(|entries|, i requires 0 <= i < |entries| => ReadRow(entries[i]).value)
  }

  function ModelPart(doc: Document): Option<Option<Effort>> {
    if "model" in doc then ReadModel(doc["model"]) else Some(None)
  }

  function SandboxPart(doc: Document): Option<Option<SandboxSection>> {
    if "sandbox" !in doc then Some(None)
    else
      match ReadSandbox(doc["sandbox"])
      case None => None
      case Some(section) => Some(Some(section))
  }

  function McpPart(doc: Document): Option<Option<seq<Row>>> {
    if "mcp" !in doc then Some(None)
    else if doc["mcp"].List? && AllRows(doc["mcp"].items) then Some(Some(RowsOf(doc["mcp"].items)))
    else None
  }

  // ----------------------------------------------------------- judging what was read

  function MountsOf(raw: seq<string>): Result<seq<string>, Refusal> {
    if raw == [] then Ok([])
    else
      var last := raw[|raw| - 1];
      match MountsOf(raw[..|raw| - 1])
      case Err(refusal) => Err(refusal)
      case Ok(mounts) =>
        if Parse(last).None? then Err(BadMount(last))
        else if IsReserved(last) then Err(ReservedMount(last))
        else Ok(mounts + [last])
  }

  /// A nonempty word over `a` to `z` and the digits.
  predicate IsServerLabel(name: string) {
    name != "" && forall c | c in name :: 'a' <= c <= 'z' || IsDigit(c)
  }

  predicate Blank(text: string) {
    Trim(text) == ""
  }

  /// The transport of a row that states exactly one of a command and a url, and that one not blank.
  function TransportOf(row: Row): Result<Transport, Refusal> {
    match (row.command, row.url)
    case (Some(_), Some(_)) => Err(TwoTransports(row.name))
    case (Some(command), None) =>
      if Blank(command) then Err(NoTransport(row.name)) else Ok(Stdio(command, row.args))
    case (None, Some(url)) =>
      if Blank(url) then Err(NoTransport(row.name)) else Ok(Http(url, row.header))
    case (None, None) => Err(NoTransport(row.name))
  }

  predicate Held(servers: seq<Server>, name: string) {
    exists i | 0 <= i < |servers| :: servers[i].name == name
  }

  function ServersOf(rows: seq<Row>): Result<seq<Server>, Refusal> {
    if rows == [] then Ok([])
    else
      var last := rows[|rows| - 1];
      match ServersOf(rows[..|rows| - 1])
      case Err(refusal) => Err(refusal)
      case Ok(servers) =>
        if !IsServerLabel(last.name) then Err(BadLabel(last.name))
        else
          match TransportOf(last)
          case Err(refusal) => Err(refusal)
          case Ok(transport) =>
            if Held(servers, last.name) then Err(NamedTheSame(last.name))
            else Ok(servers + [Server(last.name, transport)])
  }

  function SandboxOf(section: Option<SandboxSection>): Result<Option<Limits>, Refusal> {
    match section
    case None => Ok(None)
    case Some(stated) =>
      match MountsOf(stated.mounts)
      case Err(refusal) => Err(refusal)
      case Ok(mounts) =>
        Ok(Some(Limits(
          stated.shell,
          if stated.fuel.Some? then stated.fuel.value else SANDBOX_FUEL_DEFAULT,
          mounts)))
  }

  function McpOf(rows: Option<seq<Row>>): Result<Option<seq<Server>>, Refusal> {
    match rows
    case None => Ok(None)
    case Some(entries) =>
      match ServersOf(entries)
      case Err(refusal) => Err(refusal)
      case Ok(servers) => Ok(Some(servers))
  }

  /// The layer a document declares: first the grammar of the whole document, then the sandbox, then
  /// the servers.
  function LayerOf(doc: Document): Result<Layer, Refusal> {
    var model, sandbox, mcp := ModelPart(doc), SandboxPart(doc), McpPart(doc);
    if !(doc.Keys <= {"model", "sandbox", "mcp"}) || model.None? || sandbox.None? || mcp.None?
    then Err(Malformed)
    else
      match SandboxOf(sandbox.value)
      case Err(refusal) => Err(refusal)
      case Ok(limits) =>
        match McpOf(mcp.value)
        case Err(refusal) => Err(refusal)
        case Ok(servers) => Ok(Layer(model.value, limits, servers))
  }

  method ReadMounts(raw: seq<string>) returns (mounts: Result<seq<string>, Refusal>)
    ensures mounts == MountsOf(raw)
  {
    hide Parse, IsReserved;
    var held: seq<string> := [];
    for i := 0 to |raw|
      invariant MountsOf(raw[..i]) == Ok(held)
    {
      assert raw[..i + 1][..i] == raw[..i];
      RefusedPrefix(raw, i + 1);
      var mount := Parse(raw[i]);
      if mount.None? { return Err(BadMount(raw[i])); }
      if IsReserved(mount.value) { return Err(ReservedMount(raw[i])); }
      held := held + [mount.value];
    }
    assert raw[..|raw|] == raw;
    return Ok(held);
  }

  lemma {:induction false} RefusedPrefix(raw: seq<string>, i: nat)
    requires i <= |raw|
    ensures MountsOf(raw[..i]).Err? ==> MountsOf(raw) == MountsOf(raw[..i])
  {
    hide Parse, IsReserved;
    if i == |raw| {
      assert raw[..i] == raw;
    } else {
      RefusedPrefix(raw[..|raw| - 1], i);
      assert raw[..|raw| - 1][..i] == raw[..i];
    }
  }

  method ReadServers(rows: seq<Row>) returns (servers: Result<seq<Server>, Refusal>)
    ensures servers == ServersOf(rows)
  {
    hide IsServerLabel;
    var held: seq<Server> := [];
    for i := 0 to |rows|
      invariant ServersOf(rows[..i]) == Ok(held)
    {
      assert rows[..i + 1][..i] == rows[..i];
      RefusedRows(rows, i + 1);
      var row := rows[i];
      if !IsServerLabel(row.name) { return Err(BadLabel(row.name)); }
      var transport := TransportOf(row);
      if transport.Err? { return Err(transport.error); }
      if Held(held, row.name) { return Err(NamedTheSame(row.name)); }
      held := held + [Server(row.name, transport.value)];
    }
    assert rows[..|rows|] == rows;
    return Ok(held);
  }

  lemma {:induction false} RefusedRows(rows: seq<Row>, i: nat)
    requires i <= |rows|
    ensures ServersOf(rows[..i]).Err? ==> ServersOf(rows) == ServersOf(rows[..i])
  {
    hide IsServerLabel, TransportOf, Held;
    if i == |rows| {
      assert rows[..i] == rows;
    } else {
      RefusedRows(rows[..|rows| - 1], i);
      assert rows[..|rows| - 1][..i] == rows[..i];
    }
  }

  method ParseLayer(doc: Document) returns (layer: Result<Layer, Refusal>)
    ensures layer == LayerOf(doc)
  {
    hide ReadModel, ReadSandbox, AllRows, RowsOf, MountsOf, ServersOf;
    if !(doc.Keys <= {"model", "sandbox", "mcp"}) { return Err(Malformed); }
    var model, section, rows := ModelPart(doc), SandboxPart(doc), McpPart(doc);
    if model.None? || section.None? || rows.None? { return Err(Malformed); }
    var sandbox: Option<Limits> := None;
    if section.value.Some? {
      var stated := section.value.value;
      var mounts := ReadMounts(stated.mounts);
      if mounts.Err? { return Err(mounts.error); }
      var fuel := if stated.fuel.Some? then stated.fuel.value else SANDBOX_FUEL_DEFAULT;
      sandbox := Some(Limits(stated.shell, fuel, mounts.value));
    }
    var mcp: Option<seq<Server>> := None;
    if rows.value.Some? {
      var servers := ReadServers(rows.value.value);
      if servers.Err? { return Err(servers.error); }
      mcp := Some(servers.value);
    }
    return Ok(Layer(model.value, sandbox, mcp));
  }

  // -------------------------------------------------------------------- writing

  function RowFor(server: Server): Toml {
    match server.transport
    case Stdio(command, args) =>
      Table(map["label" := Text(server.name), "command" := Text(command), "args" := List(Texts(args))])
    case Http(url, None) =>
      Table(map["label" := Text(server.name), "url" := Text(url)])
    case Http(url, Some(header)) =>
      Table(map["label" := Text(server.name), "url" := Text(url), "header" := Text(header)])
  }

  function RowsFor(servers: seq<Server>): (rows: seq<Toml>)
    ensures |rows| == |servers| && forall i | 0 <= i < |rows| :: rows[i] == RowFor(servers[i])
  {
    seq(|servers|, i requires 0 <= i < |servers| => RowFor(servers[i]))
  }

  function WithMcp(doc: Document, servers: seq<Server>): Document {
    doc["mcp" := List(RowsFor(servers))]
  }

  function WithSandbox(doc: Document, limits: Limits): Result<Document, Refusal> {
    if limits.fuel > I64_MAX then Err(FuelTooLarge)
    else Ok(doc["sandbox" := Table(map[
      "shell" := Flag(limits.shell),
      "fuel" := Number(limits.fuel),
      "mounts" := List(Texts(limits.mounts))])])
  }

  function WithEffort(doc: Document, effort: Effort): Result<Document, Refusal> {
    var model := if "model" in doc then doc["model"] else Table(map[]);
    if !model.Table? then Err(NotASection)
    else Ok(doc["model" := Table(model.table["effort" := Text(Spelled(effort))])])
  }

  // ---------------------------------------------------------------- round trips

  lemma TextsRoundTrip(texts: seq<string>)
    ensures TextsOf(Texts(texts)) == texts
  {
  }

  function RowOf(server: Server): Row {
    match server.transport
    case Stdio(command, args) => Row(server.name, Some(command), args, None, None)
    case Http(url, header) => Row(server.name, None, [], Some(url), header)
  }

  lemma RowRoundTrips(server: Server)
    ensures ReadRow(RowFor(server)) == Some(RowOf(server))
  {
    if server.transport.Stdio? { TextsRoundTrip(server.transport.args); }
  }

  /// A row says how its server is reached.
  predicate Reachable(server: Server) {
    match server.transport
    case Stdio(command, _) => !Blank(command)
    case Http(url, _) => !Blank(url)
  }

  predicate Routable(servers: seq<Server>) {
    && (forall i | 0 <= i < |servers| :: Reachable(servers[i]))
    && (forall i, j | 0 <= i < j < |servers| :: servers[i].name != servers[j].name)
  }

  function AsRows(servers: seq<Server>): (rows: seq<Row>)
    ensures |rows| == |servers| && forall i | 0 <= i < |rows| :: rows[i] == RowOf(servers[i])
  {
    seq(|servers|, i requires 0 <= i < |servers| => RowOf(servers[i]))
  }

  lemma {:induction false} ServersRoundTrip(servers: seq<Server>)
    requires forall i | 0 <= i < |servers| :: IsServerLabel(servers[i].name)
    ensures ServersOf(AsRows(servers)).Ok? <==> Routable(servers)
    ensures Routable(servers) ==> ServersOf(AsRows(servers)) == Ok(servers)
  {
    hide IsServerLabel, Routable, Reachable, Held, TransportOf, RowOf;
    if servers == [] {
      NoneAreRoutable();
    } else {
      var n := |servers| - 1;
      var front, last := servers[..n], servers[n];
      ServersRoundTrip(front);
      assert AsRows(servers)[..n] == AsRows(front);
      assert servers == front + [last];
      RoutableStep(front, last);
      TransportRoundTrips(last);
      assert AsRows(servers)[n].name == last.name;
    }
  }

  lemma NoneAreRoutable()
    ensures Routable([])
  {
  }

  lemma RoutableStep(front: seq<Server>, last: Server)
    ensures Routable(front + [last]) <==> Routable(front) && Reachable(last) && !Held(front, last.name)
  {
    hide Reachable;
    var servers, n := front + [last], |front|;
    assert servers[n] == last && forall i | 0 <= i < n :: servers[i] == front[i];
    if Routable(servers) {
      forall i | 0 <= i < n
        ensures front[i].name != last.name && Reachable(front[i])
      {
        assert servers[i].name != servers[n].name && Reachable(servers[i]);
      }
      forall i, j | 0 <= i < j < n
        ensures front[i].name != front[j].name
      {
        assert servers[i].name != servers[j].name;
      }
    }
  }

  lemma TransportRoundTrips(server: Server)
    ensures RowOf(server).name == server.name
    ensures TransportOf(RowOf(server)).Ok? <==> Reachable(server)
    ensures Reachable(server) ==> TransportOf(RowOf(server)) == Ok(server.transport)
  {
    hide Blank;
  }

  lemma McpPartRoundTrips(doc: Document, servers: seq<Server>)
    ensures McpPart(WithMcp(doc, servers)) == Some(Some(AsRows(servers)))
  {
    hide ReadRow, RowFor, RowOf;
    var entries := RowsFor(servers);
    forall i | 0 <= i < |entries|
      ensures ReadRow(entries[i]) == Some(AsRows(servers)[i])
    {
      RowRoundTrips(servers[i]);
    }
    assert AllRows(entries);
    assert RowsOf(entries) == AsRows(servers);
  }

  /// Servers written to a scope are read back as they were exactly when each can be reached, no two
  /// share a label, and the rest of the file is readable. The empty list comes back stated.
  lemma McpRoundTripsIff(doc: Document, servers: seq<Server>)
    requires forall i | 0 <= i < |servers| :: IsServerLabel(servers[i].name)
    ensures
      LayerOf(WithMcp(doc, servers)).Ok? <==> LayerOf(doc - {"mcp"}).Ok? && Routable(servers)
    ensures
      LayerOf(WithMcp(doc, servers)).Ok? ==>
        LayerOf(WithMcp(doc, servers)) == Ok(LayerOf(doc - {"mcp"}).value.(mcp := Some(servers)))
  {
    hide Routable, IsServerLabel, ReadModel, ReadSandbox, AllRows, RowsOf, SandboxOf;
    McpPartRoundTrips(doc, servers);
    ServersRoundTrip(servers);
    var after, rest := WithMcp(doc, servers), doc - {"mcp"};
    assert ModelPart(after) == ModelPart(rest) && SandboxPart(after) == SandboxPart(rest);
  }

  predicate Mountable(mounts: seq<string>) {
    forall i | 0 <= i < |mounts| :: !IsReserved(mounts[i])
  }

  lemma {:induction false} MountsRoundTrip(mounts: seq<string>)
    requires forall i | 0 <= i < |mounts| :: Parse(mounts[i]).Some?
    ensures MountsOf(mounts).Ok? <==> Mountable(mounts)
    ensures Mountable(mounts) ==> MountsOf(mounts) == Ok(mounts)
  {
    hide Parse, IsReserved;
    if mounts != [] {
      var n := |mounts| - 1;
      MountsRoundTrip(mounts[..n]);
      assert mounts == mounts[..n] + [mounts[n]];
    }
  }

  lemma SandboxSectionRoundTrips(doc: Document, limits: Limits)
    requires limits.fuel <= I64_MAX
    ensures SandboxPart(WithSandbox(doc, limits).value)
         == Some(Some(SandboxSection(limits.shell, Some(limits.fuel), limits.mounts)))
  {
    TextsRoundTrip(limits.mounts);
  }

  /// Limits written to a scope are read back as they were exactly when none of their mounts is
  /// reserved and the rest of the file is readable: the writer does not refuse a mount the reader
  /// refuses.
  lemma SandboxRoundTripsIff(doc: Document, limits: Limits)
    requires forall i | 0 <= i < |limits.mounts| :: Parse(limits.mounts[i]).Some?
    requires WithSandbox(doc, limits).Ok?
    ensures
      LayerOf(WithSandbox(doc, limits).value).Ok?
      <==> LayerOf(doc - {"sandbox"}).Ok? && Mountable(limits.mounts)
    ensures
      LayerOf(WithSandbox(doc, limits).value).Ok? ==>
        LayerOf(WithSandbox(doc, limits).value)
        == Ok(LayerOf(doc - {"sandbox"}).value.(sandbox := Some(limits)))
  {
    hide Parse, IsReserved, Mountable, ReadModel, ReadSandbox, AllRows, RowsOf, McpOf;
    SandboxSectionRoundTrips(doc, limits);
    MountsRoundTrip(limits.mounts);
    var after, rest := WithSandbox(doc, limits).value, doc - {"sandbox"};
    assert ModelPart(after) == ModelPart(rest) && McpPart(after) == McpPart(rest);
  }

  /// The reserved prefix parses as an address, so it is written as a mount, and the document no longer
  /// reads.
  lemma WrittenLimitsMayBeUnreadable()
    ensures
      var limits := Limits(false, 0, [RESERVED_PREFIX]);
      && Parse(RESERVED_PREFIX).Some?
      && WithSandbox(map[], limits).Ok?
      && LayerOf(WithSandbox(map[], limits).value).Err?
  {
    hide LayerOf, Parse, IsReserved, WithSandbox;
    var limits := Limits(false, 0, [RESERVED_PREFIX]);
    ReservedPrefixReads();
    assert IsReserved(limits.mounts[0]);
    assert WithSandbox(map[], limits).Ok? by { hide *; SmallFuelIsWritten(map[], limits); }
    SandboxRoundTripsIff(map[], limits);
  }

  lemma SmallFuelIsWritten(doc: Document, limits: Limits)
    ensures WithSandbox(doc, limits).Ok? <==> limits.fuel <= I64_MAX
  {
  }

  lemma ReservedPrefixReads()
    ensures Parse(RESERVED_PREFIX).Some? && IsReserved(RESERVED_PREFIX)
  {
    hide Canonical, Segments;
    PlainWord(RESERVED_PREFIX);
  }

  /// The document without the effort it states.
  function WithoutEffort(doc: Document): Document {
    if "model" in doc && doc["model"].Table?
    then doc["model" := Table(doc["model"].table - {"effort"})]
    else doc
  }

  lemma SpellingReads(effort: Effort)
    ensures EffortOf(Spelled(effort)) == Some(effort)
  {
  }

  /// An effort written to a scope is read back exactly when the rest of the file is readable, and
  /// what the rest says stays.
  lemma EffortRoundTripsIff(doc: Document, effort: Effort)
    ensures
      (WithEffort(doc, effort).Ok? && LayerOf(WithEffort(doc, effort).value).Ok?)
      <==> LayerOf(WithoutEffort(doc)).Ok?
    ensures
      LayerOf(WithoutEffort(doc)).Ok? ==>
        LayerOf(WithEffort(doc, effort).value)
        == Ok(LayerOf(WithoutEffort(doc)).value.(effort := Some(effort)))
  {
    hide ReadSandbox, AllRows, RowsOf, McpOf, SandboxOf, Spelled, EffortOf;
    SpellingReads(effort);
    var rest := WithoutEffort(doc);
    if WithEffort(doc, effort).Ok? {
      var after := WithEffort(doc, effort).value;
      assert SandboxPart(after) == SandboxPart(rest) && McpPart(after) == McpPart(rest);
      assert after.Keys <= {"model", "sandbox", "mcp"} <==> rest.Keys <= {"model", "sandbox", "mcp"};
    }
  }

  /// A readable file stays readable under each writer, which changes its own setting and no other.
  lemma WritersChangeTheirOwnSetting(doc: Document, effort: Effort, limits: Limits, servers: seq<Server>)
    requires LayerOf(doc).Ok?
    requires limits.fuel <= I64_MAX && Mountable(limits.mounts)
    requires forall i | 0 <= i < |limits.mounts| :: Parse(limits.mounts[i]).Some?
    requires Routable(servers) && forall i | 0 <= i < |servers| :: IsServerLabel(servers[i].name)
    ensures WithEffort(doc, effort).Ok?
    ensures LayerOf(WithEffort(doc, effort).value) == Ok(LayerOf(doc).value.(effort := Some(effort)))
    ensures LayerOf(WithSandbox(doc, limits).value) == Ok(LayerOf(doc).value.(sandbox := Some(limits)))
    ensures LayerOf(WithMcp(doc, servers)) == Ok(LayerOf(doc).value.(mcp := Some(servers)))
  {
    hide Parse, IsServerLabel, Mountable, Routable, LayerOf, WithEffort, WithMcp, WithoutEffort;
    ClearedIsReadable(doc);
    EffortRoundTripsIff(doc, effort);
    SandboxRoundTripsIff(doc, limits);
    McpRoundTripsIff(doc, servers);
  }

  lemma ClearedIsReadable(doc: Document)
    requires LayerOf(doc).Ok?
    ensures LayerOf(WithoutEffort(doc)) == Ok(LayerOf(doc).value.(effort := None))
    ensures LayerOf(doc - {"sandbox"}) == Ok(LayerOf(doc).value.(sandbox := None))
    ensures LayerOf(doc - {"mcp"}) == Ok(LayerOf(doc).value.(mcp := None))
  {
    hide ReadSandbox, AllRows, RowsOf, ServersOf, MountsOf, EffortOf;
    ClearedEffort(doc);
    assert ModelPart(doc - {"sandbox"}) == ModelPart(doc) && McpPart(doc - {"sandbox"}) == McpPart(doc);
    assert ModelPart(doc - {"mcp"}) == ModelPart(doc) && SandboxPart(doc - {"mcp"}) == SandboxPart(doc);
  }

  lemma ClearedEffort(doc: Document)
    requires LayerOf(doc).Ok?
    ensures LayerOf(WithoutEffort(doc)) == Ok(LayerOf(doc).value.(effort := None))
  {
    hide ReadSandbox, AllRows, RowsOf, McpOf, SandboxOf, EffortOf;
    var rest := WithoutEffort(doc);
    assert SandboxPart(rest) == SandboxPart(doc) && McpPart(rest) == McpPart(doc);
  }

  /// The writers commute: in any order they leave the same document.
  lemma WritersCommute(doc: Document, effort: Effort, limits: Limits, servers: seq<Server>)
    requires WithEffort(doc, effort).Ok? && limits.fuel <= I64_MAX
    ensures
      WithSandbox(WithMcp(doc, servers), limits).value == WithMcp(WithSandbox(doc, limits).value, servers)
    ensures
      WithEffort(WithMcp(doc, servers), effort) == Ok(WithMcp(WithEffort(doc, effort).value, servers))
    ensures
      WithEffort(WithSandbox(doc, limits).value, effort)
      == WithSandbox(WithEffort(doc, effort).value, limits)
  {
    hide RowsFor, Texts, Spelled;
    var rows := List(RowsFor(servers));
    var section := WithSandbox(doc, limits).value["sandbox"];
    var model := WithEffort(doc, effort).value["model"];
    KeysCommute(doc, "mcp", rows, "sandbox", section);
    KeysCommute(doc, "mcp", rows, "model", model);
    KeysCommute(doc, "sandbox", section, "model", model);
  }

  lemma KeysCommute(doc: Document, one: string, x: Toml, two: string, y: Toml)
    requires one != two
    ensures doc[one := x][two := y] == doc[two := y][one := x]
  {
  }

  // ------------------------------------------------------------------- the ladder

  datatype Rung = City | Building | Resident

  function BuildingOf(addr: string): Result<string, Refusal> {
    var head := Segments(addr)[0];
    if Parse(head).None? || IsReserved(head) then Err(NoBuilding) else Ok(head)
  }

  function InScope(scope: string): string {
    scope + "/" + RESERVED_PREFIX + "/" + CONFIG_FILE
  }

  function PathOf(addr: string, rung: Rung): Result<string, Refusal> {
    match rung
    case City => Ok(RESERVED_PREFIX + "/" + CONFIG_FILE)
    case Building =>
      (match BuildingOf(addr)
       case Err(refusal) => Err(refusal)
       case Ok(head) => Ok(InScope(head)))
    case Resident => Ok(InScope(addr))
  }

  /// A file's text either is a TOML document or is not.
  datatype Stored = Garbled | Parsed(document: Document)

  /// The configuration files of a city. Reading an `unreadable` path and writing an `unwritable` one
  /// fail for a reason of the machine's own.
  datatype Files = Files(contents: map<string, Stored>, unreadable: set<string>, unwritable: set<string>)

  function DocumentAt(files: Files, path: string): Result<Document, Refusal> {
    if path !in files.contents then Ok(map[])
    else if path in files.unreadable then Err(StorageFatal)
    else
      match files.contents[path]
      case Garbled => Err(Malformed)
      case Parsed(document) => Ok(document)
  }

  /// The layer at a path; where there is no file it is `SILENT`.
  function LayerAt(files: Files, path: string): Result<Layer, Refusal> {
    match DocumentAt(files, path)
    case Err(refusal) => Err(refusal)
    case Ok(document) => LayerOf(document)
  }

  function Resolve<T>(resident: Option<T>, building: Option<T>, city: Option<T>): Option<T> {
    if resident.Some? then resident else if building.Some? then building else city
  }

  /// The three settings after resolution, with defaults in the place of unstated ones.
  datatype Frozen = Frozen(effort: Option<Effort>, sandbox: Limits, mcp: seq<Server>)

  function Frost(effort: Option<Effort>, sandbox: Option<Limits>, mcp: Option<seq<Server>>): Frozen {
    Frozen(
      effort,
      if sandbox.Some? then sandbox.value else Limits(false, SANDBOX_FUEL_DEFAULT, []),
      if mcp.Some? then mcp.value else [])
  }

  function Loaded(files: Files, addr: string): Result<Frozen, Refusal> {
    match (LayerAt(files, PathOf(addr, City).value), PathOf(addr, Building))
    case (Err(refusal), _) => Err(refusal)
    case (Ok(_), Err(refusal)) => Err(refusal)
    case (Ok(city), Ok(buildingPath)) =>
      match LayerAt(files, buildingPath)
      case Err(refusal) => Err(refusal)
      case Ok(building) =>
        var residentPath := PathOf(addr, Resident).value;
        match (if residentPath == buildingPath then Ok(SILENT) else LayerAt(files, residentPath))
        case Err(refusal) => Err(refusal)
        case Ok(resident) =>
          Ok(Frost(
            Resolve(resident.effort, building.effort, city.effort),
            Resolve(resident.sandbox, building.sandbox, city.sandbox),
            Resolve(resident.mcp, building.mcp, city.mcp)))
  }

  class ConfigFiles {
    var files: Files

    constructor (files: Files)
      ensures this.files == files
    {
      this.files := files;
    }

    method Store(path: string, document: Document) returns (done: Result<(), Refusal>)
      modifies this
      ensures done.Ok? <==> path !in old(files).unwritable
      ensures files == if done.Ok? then Written(old(files), path, document) else old(files)
    {
      if path in files.unwritable { return Err(StorageFatal); }
      files := files.(contents := files.contents[path := Parsed(document)]);
      return Ok(());
    }

    method WriteEffort(addr: string, effort: Effort) returns (done: Result<(), Refusal>)
      modifies this
      ensures
        var path := InScope(addr);
        var was := DocumentAt(old(files), path);
        && (done.Ok? <==> was.Ok? && WithEffort(was.value, effort).Ok? && path !in old(files).unwritable)
        && files == (if done.Ok? then Written(old(files), path, WithEffort(was.value, effort).value) else old(files))
    {
      var path := PathOf(addr, Resident).value;
      var was := DocumentAt(files, path);
      if was.Err? { return Err(was.error); }
      var now := WithEffort(was.value, effort);
      if now.Err? { return Err(now.error); }
      done := Store(path, now.value);
    }

    method WriteSandbox(addr: string, rung: Rung, limits: Limits) returns (done: Result<(), Refusal>)
      modifies this
      ensures done.Ok? ==>
        && PathOf(addr, rung).Ok?
        && var path := PathOf(addr, rung).value;
        && DocumentAt(old(files), path).Ok? && WithSandbox(DocumentAt(old(files), path).value, limits).Ok?
        && files == Written(old(files), path, WithSandbox(DocumentAt(old(files), path).value, limits).value)
      ensures done.Err? ==>
        && files == old(files)
        && (PathOf(addr, rung).Ok? ==>
             var path := PathOf(addr, rung).value;
             DocumentAt(files, path).Err? || limits.fuel > I64_MAX || path in files.unwritable)
    {
      var path := PathOf(addr, rung);
      if path.Err? { return Err(path.error); }
      var was := DocumentAt(files, path.value);
      if was.Err? { return Err(was.error); }
      var now := WithSandbox(was.value, limits);
      if now.Err? { return Err(now.error); }
      done := Store(path.value, now.value);
    }

    method WriteMcp(addr: string, rung: Rung, servers: seq<Server>) returns (done: Result<(), Refusal>)
      modifies this
      ensures done.Ok? ==>
        && PathOf(addr, rung).Ok?
        && var path := PathOf(addr, rung).value;
        && DocumentAt(old(files), path).Ok?
        && files == Written(old(files), path, WithMcp(DocumentAt(old(files), path).value, servers))
      ensures done.Err? ==>
        && files == old(files)
        && (PathOf(addr, rung).Ok? ==>
             var path := PathOf(addr, rung).value;
             DocumentAt(files, path).Err? || path in files.unwritable)
    {
      hide RowFor;
      var path := PathOf(addr, rung);
      if path.Err? { return Err(path.error); }
      var was := DocumentAt(files, path.value);
      if was.Err? { return Err(was.error); }
      var rows: seq<Toml> := [];
      for i := 0 to |servers|
        invariant files == old(files)
        invariant rows == RowsFor(servers[..i])
      {
        rows := rows + [RowFor(servers[i])];
      }
      assert servers[..|servers|] == servers;
      done := Store(path.value, was.value["mcp" := List(rows)]);
    }

    method Load(addr: string) returns (frozen: Result<Frozen, Refusal>)
      ensures frozen == Loaded(files, addr)
    {
      hide LayerOf;
      var city := ReadLayer(PathOf(addr, City).value);
      if city.Err? { return Err(city.error); }
      var buildingPath := PathOf(addr, Building);
      if buildingPath.Err? { return Err(buildingPath.error); }
      var building := ReadLayer(buildingPath.value);
      if building.Err? { return Err(building.error); }
      var resident: Result<Layer, Refusal> := Ok(SILENT);
      if PathOf(addr, Resident).value != buildingPath.value {
        resident := ReadLayer(PathOf(addr, Resident).value);
      }
      if resident.Err? { return Err(resident.error); }
      return Ok(Frost(
        Resolve(resident.value.effort, building.value.effort, city.value.effort),
        Resolve(resident.value.sandbox, building.value.sandbox, city.value.sandbox),
        Resolve(resident.value.mcp, building.value.mcp, city.value.mcp)));
    }

    method ReadLayer(path: string) returns (layer: Result<Layer, Refusal>)
      ensures layer == LayerAt(files, path)
    {
      var document := DocumentAt(files, path);
      if document.Err? { return Err(document.error); }
      layer := ParseLayer(document.value);
    }
  }

  function Written(files: Files, path: string, document: Document): Files {
    files.(contents := files.contents[path := Parsed(document)])
  }

  // --------------------------------------------------------------- who governs

  /// The files that may govern a run at this address, nearest first, each once.
  function Rungs(addr: string): seq<string> {
    var city := PathOf(addr, City).value;
    match PathOf(addr, Building)
    case Err(_) => [city]
    case Ok(building) =>
      if InScope(addr) == building then [building, city] else [InScope(addr), building, city]
  }

  /// The nearest file of these that states a setting.
  predicate Nearest<T(==)>(stated: seq<Option<T>>, setting: Option<T>) {
    && (setting.None? <==> forall k | 0 <= k < |stated| :: stated[k].None?)
    && (setting.Some? ==>
      exists k | 0 <= k < |stated| ::
        stated[k] == setting && forall j | 0 <= j < k :: stated[j].None?)
  }

  predicate Readable(files: Files, paths: seq<string>) {
    forall k | 0 <= k < |paths| :: LayerAt(files, paths[k]).Ok?
  }

  function Stated<T>(files: Files, paths: seq<string>, setting: Layer -> Option<T>): (stated: seq<Option<T>>)
    requires Readable(files, paths)
    ensures |stated| == |paths|
    ensures forall k | 0 <= k < |paths| :: stated[k] == setting(LayerAt(files, paths[k]).value)
  {
    seq(|paths|, k requires 0 <= k < |paths| => setting(LayerAt(files, paths[k]).value))
  }

  /// The last of the files is the city's, the one before it the building's, and a third in front is
  /// the resident's own.
  function LayerFrom(files: Files, paths: seq<string>, rung: Rung): Layer
    requires 2 <= |paths| <= 3 && Readable(files, paths)
  {
    match rung
    case City => LayerAt(files, paths[|paths| - 1]).value
    case Building => LayerAt(files, paths[|paths| - 2]).value
    case Resident => if |paths| == 3 then LayerAt(files, paths[0]).value else SILENT
  }

  function Resolved<T>(files: Files, paths: seq<string>, setting: Layer -> Option<T>): Option<T>
    requires 2 <= |paths| <= 3 && Readable(files, paths)
  {
    Resolve(
      setting(LayerFrom(files, paths, Resident)),
      setting(LayerFrom(files, paths, Building)),
      setting(LayerFrom(files, paths, City)))
  }

  lemma ResolvesToNearest<T>(files: Files, paths: seq<string>, setting: Layer -> Option<T>)
    requires 2 <= |paths| <= 3 && Readable(files, paths) && setting(SILENT).None?
    ensures Nearest(Stated(files, paths, setting), Resolved(files, paths, setting))
  {
    hide LayerAt;
    var stated := Stated(files, paths, setting);
    assert |paths| == 3 ==> stated[2] == setting(LayerFrom(files, paths, City));
    assert stated[|paths| - 1] == setting(LayerFrom(files, paths, City));
    assert stated[|paths| - 2] == setting(LayerFrom(files, paths, Building));
    assert |paths| == 3 ==> stated[0] == setting(LayerFrom(files, paths, Resident));
  }

  function EffortIn(layer: Layer): Option<Effort> { layer.effort }

  function SandboxIn(layer: Layer): Option<Limits> { layer.sandbox }

  function McpIn(layer: Layer): Option<seq<Server>> { layer.mcp }

  lemma LoadResolves(files: Files, addr: string)
    requires Loaded(files, addr).Ok?
    ensures 2 <= |Rungs(addr)| <= 3 && Readable(files, Rungs(addr))
    ensures
      var paths := Rungs(addr);
      Loaded(files, addr)
      == Ok(Frost(
        Resolved(files, paths, EffortIn), Resolved(files, paths, SandboxIn), Resolved(files, paths, McpIn)))
  {
    hide LayerAt, Parse, IsReserved, Segments, InScope, Frost;
    LoadReadsTheRungs(files, addr);
    var paths := Rungs(addr);
    assert paths[|paths| - 1] == PathOf(addr, City).value;
    assert paths[|paths| - 2] == PathOf(addr, Building).value;
  }

  /// A run is governed exactly when its address has a building and each of its files is readable,
  /// and then each setting is the one stated by the nearest file that states it. A file that is
  /// both the resident's and the building's counts once.
  lemma LoadTakesTheNearest(files: Files, addr: string)
    ensures Loaded(files, addr).Ok? <==> BuildingOf(addr).Ok? && Readable(files, Rungs(addr))
    ensures Loaded(files, addr).Ok? ==>
      exists effort, sandbox, mcp ::
        && Loaded(files, addr) == Ok(Frost(effort, sandbox, mcp))
        && Nearest(Stated(files, Rungs(addr), EffortIn), effort)
        && Nearest(Stated(files, Rungs(addr), SandboxIn), sandbox)
        && Nearest(Stated(files, Rungs(addr), McpIn), mcp)
  {
    hide Loaded, Rungs, BuildingOf, Resolved, Frost, Nearest, Readable, LayerAt;
    LoadReadsTheRungs(files, addr);
    if Loaded(files, addr).Ok? {
      LoadResolves(files, addr);
      ResolvesToNearest(files, Rungs(addr), EffortIn);
      ResolvesToNearest(files, Rungs(addr), SandboxIn);
      ResolvesToNearest(files, Rungs(addr), McpIn);
    }
  }

  lemma LoadReadsTheRungs(files: Files, addr: string)
    ensures Loaded(files, addr).Ok? <==> BuildingOf(addr).Ok? && Readable(files, Rungs(addr))
    ensures BuildingOf(addr).Ok? ==> 2 <= |Rungs(addr)| <= 3
  {
    hide LayerAt, Parse, IsReserved, Segments, InScope;
    var paths := Rungs(addr);
    if BuildingOf(addr).Ok? {
      var n := |paths|;
      assert paths[n - 1] == PathOf(addr, City).value && paths[n - 2] == PathOf(addr, Building).value;
      assert n == 3 ==> paths[0] == InScope(addr);
    }
  }

  lemma RungsAreDistinct(addr: string)
    ensures forall j, k | 0 <= j < k < |Rungs(addr)| :: Rungs(addr)[j] != Rungs(addr)[k]
  {
    hide Parse, IsReserved, Segments;
  }

  /// A write reaches no run that does not read the file it went to.
  lemma WritesReachTheirReaders(files: Files, path: string, document: Document, addr: string)
    requires path !in Rungs(addr)
    ensures Loaded(Written(files, path, document), addr) == Loaded(files, addr)
  {
    hide LayerAt, BuildingOf, Segments, InScope, Frost;
    var paths := Rungs(addr);
    var after := Written(files, path, document);
    OtherLayersStay(files, path, document);
    assert PathOf(addr, City).value in paths;
    assert BuildingOf(addr).Ok? ==> PathOf(addr, Building).value in paths && InScope(addr) in paths;
  }

  lemma OtherLayersStay(files: Files, path: string, document: Document)
    ensures forall other :: other != path ==> LayerAt(Written(files, path, document), other) == LayerAt(files, other)
  {
    hide LayerOf;
  }

  lemma RewrittenRung(files: Files, addr: string, k: nat, document: Document, change: Layer -> Layer)
    requires Loaded(files, addr).Ok? && k < |Rungs(addr)|
    requires Rungs(addr)[k] !in files.unreadable
    requires LayerOf(document) == Ok(change(LayerAt(files, Rungs(addr)[k]).value))
    ensures
      var after := Written(files, Rungs(addr)[k], document);
      && Loaded(after, addr).Ok?
      && forall j | 0 <= j < |Rungs(addr)| ::
        LayerAt(after, Rungs(addr)[j])
        == Ok(var was := LayerAt(files, Rungs(addr)[j]).value; if j == k then change(was) else was)
  {
    hide LayerOf, Rungs, Loaded, BuildingOf;
    LoadReadsTheRungs(files, addr);
    RungsAreDistinct(addr);
    LoadReadsTheRungs(Written(files, Rungs(addr)[k], document), addr);
  }

  lemma FilesReadAreDocuments(files: Files, addr: string, k: nat)
    requires Loaded(files, addr).Ok? && k < |Rungs(addr)|
    ensures DocumentAt(files, Rungs(addr)[k]).Ok?
    ensures LayerAt(files, Rungs(addr)[k]) == LayerOf(DocumentAt(files, Rungs(addr)[k]).value)
    ensures LayerAt(files, Rungs(addr)[k]).Ok?
  {
    hide LayerOf, Rungs, Loaded, BuildingOf;
    LoadReadsTheRungs(files, addr);
  }

  /// An effort chosen for an address governs the next run there, and no other setting moves.
  lemma ChosenEffortGoverns(files: Files, addr: string, effort: Effort)
    requires Loaded(files, addr).Ok? && InScope(addr) !in files.unreadable
    ensures DocumentAt(files, InScope(addr)).Ok?
    ensures WithEffort(DocumentAt(files, InScope(addr)).value, effort).Ok?
    ensures
      var now := WithEffort(DocumentAt(files, InScope(addr)).value, effort).value;
      Loaded(Written(files, InScope(addr), now), addr)
      == Ok(Loaded(files, addr).value.(effort := Some(effort)))
  {
    hide LayerOf, WithEffort, WithoutEffort, Loaded, Rungs, LayerAt, DocumentAt, Written, InScope;
    LoadResolves(files, addr);
    OwnFileIsNearest(files, addr);
    FilesReadAreDocuments(files, addr, 0);
    var path := InScope(addr);
    var document := DocumentAt(files, path).value;
    ClearedIsReadable(document);
    EffortRoundTripsIff(document, effort);
    var now := WithEffort(document, effort).value;
    RewrittenRung(files, addr, 0, now, (l: Layer) => l.(effort := Some(effort)));
    LoadResolves(Written(files, path, now), addr);
  }

  lemma OwnFileIsNearest(files: Files, addr: string)
    requires Loaded(files, addr).Ok?
    ensures Rungs(addr)[0] == InScope(addr)
  {
    hide LayerAt, Parse, IsReserved, Segments, InScope;
    LoadReadsTheRungs(files, addr);
  }

  /// Servers written at one rung are the loaded ones exactly when no nearer file states any, and no
  /// other setting moves.
  lemma WrittenServersGovern(files: Files, addr: string, k: nat, servers: seq<Server>)
    requires Loaded(files, addr).Ok? && k < |Rungs(addr)|
    requires Rungs(addr)[k] !in files.unreadable
    requires Routable(servers) && forall i | 0 <= i < |servers| :: IsServerLabel(servers[i].name)
    ensures DocumentAt(files, Rungs(addr)[k]).Ok? && Readable(files, Rungs(addr))
    ensures
      var now := WithMcp(DocumentAt(files, Rungs(addr)[k]).value, servers);
      var nearer := exists j | 0 <= j < k :: LayerAt(files, Rungs(addr)[j]).value.mcp.Some?;
      Loaded(Written(files, Rungs(addr)[k], now), addr)
      == Ok(if nearer then Loaded(files, addr).value else Loaded(files, addr).value.(mcp := servers))
  {
    hide LayerOf, WithMcp, WithoutEffort, Loaded, Rungs, LayerAt, DocumentAt, Written, Routable, IsServerLabel;
    LoadResolves(files, addr);
    FilesReadAreDocuments(files, addr, k);
    var document := DocumentAt(files, Rungs(addr)[k]).value;
    ClearedIsReadable(document);
    McpRoundTripsIff(document, servers);
    var now := WithMcp(document, servers);
    RewrittenRung(files, addr, k, now, (l: Layer) => l.(mcp := Some(servers)));
    LoadResolves(Written(files, Rungs(addr)[k], now), addr);
  }

  /// Limits written at one rung leave a run governed exactly when they are mountable, and then are the
  /// loaded ones exactly when no nearer file states any.
  lemma WrittenLimitsGovern(files: Files, addr: string, k: nat, limits: Limits)
    requires Loaded(files, addr).Ok? && k < |Rungs(addr)|
    requires Rungs(addr)[k] !in files.unreadable
    requires limits.fuel <= I64_MAX && forall i | 0 <= i < |limits.mounts| :: Parse(limits.mounts[i]).Some?
    ensures DocumentAt(files, Rungs(addr)[k]).Ok? && Readable(files, Rungs(addr))
    ensures WithSandbox(DocumentAt(files, Rungs(addr)[k]).value, limits).Ok?
    ensures
      var now := WithSandbox(DocumentAt(files, Rungs(addr)[k]).value, limits).value;
      var after := Loaded(Written(files, Rungs(addr)[k], now), addr);
      var nearer := exists j | 0 <= j < k :: LayerAt(files, Rungs(addr)[j]).value.sandbox.Some?;
      && (after.Ok? <==> Mountable(limits.mounts))
      && (after.Ok? ==>
        after == Ok(if nearer then Loaded(files, addr).value else Loaded(files, addr).value.(sandbox := limits)))
  {
    hide LayerOf, WithSandbox, WithoutEffort, Loaded, Rungs, LayerAt, DocumentAt, Written, Mountable, Parse;
    LoadResolves(files, addr);
    FilesReadAreDocuments(files, addr, k);
    var document := DocumentAt(files, Rungs(addr)[k]).value;
    ClearedIsReadable(document);
    SmallFuelIsWritten(document, limits);
    SandboxRoundTripsIff(document, limits);
    var now := WithSandbox(document, limits).value;
    var after := Written(files, Rungs(addr)[k], now);
    if Mountable(limits.mounts) {
      RewrittenRung(files, addr, k, now, (l: Layer) => l.(sandbox := Some(limits)));
      LoadResolves(after, addr);
    } else {
      BrokenRung(files, addr, k, now);
    }
  }

  lemma BrokenRung(files: Files, addr: string, k: nat, document: Document)
    requires k < |Rungs(addr)| && Rungs(addr)[k] !in files.unreadable && LayerOf(document).Err?
    ensures Loaded(Written(files, Rungs(addr)[k], document), addr).Err?
  {
    hide LayerOf, Rungs, Loaded, BuildingOf;
    LoadReadsTheRungs(Written(files, Rungs(addr)[k], document), addr);
    assert LayerAt(Written(files, Rungs(addr)[k], document), Rungs(addr)[k]).Err?;
  }
}
