/**
 The Postgres competition row of veridex/store.py: there is no owner column and no binding column, so
 both ride inside the config JSON blob. With each transaction one row-level step, the steps simulate the
 in-memory store and no config rewrite loses a rider. The config rewrite reads without locking the row,
 though; taken as a read and a later write, it loses the binding exactly when a freeze lands in between.
 */
module CompetitionRows {
  import opened Prelude
  import opened Competitions

  datatype Row = Row(configJson: map<string, Json>, status: Status, runId: Option<string>, entries: seq<Entry>)

  type Rows = map<string, Row>

  function BindingJson(b: Option<Binding>): Json {
    match b
    case None => JNull
    case Some(Binding(p, f, h)) =>
      JObj(map["pack_id" := JStr(p), "fixture_id" := JInt(f), "content_hash" := JStr(h)])
  }

  function OwnerJson(owner: Option<string>): Json {
    match owner case None => JNull case Some(o) => JStr(o)
  }

  /** _serialize_competition_config: the config fields, then the two riders folded in. */
  function Serialize(config: Config, owner: Option<string>, binding: Option<Binding>): map<string, Json> {
    config["owner_id" := OwnerJson(owner)]["replay_binding" := BindingJson(binding)]
  }

  /** CompetitionConfig.model_validate: its own fields are read, any other key is ignored. */
  function ValidateConfig(blob: map<string, Json>): (c: Config)
    requires CarriesConfig(blob)
  {
    map k | k in CONFIG_FIELDS :: blob[k]
  }

  predicate CarriesConfig(blob: map<string, Json>) {
    CONFIG_FIELDS <= blob.Keys && blob["roster_size"].JInt? && blob["roster_size"].n >= 2
  }

  /** A legacy blob has no rider key at all; that reads as unowned or unbound. */
  function OwnerOf(blob: map<string, Json>): Option<string> {
    if "owner_id" in blob && blob["owner_id"].JStr? then Some(blob["owner_id"].s) else None
  }

  predicate IsBindingJson(j: Json) {
    j.JObj? && {"pack_id", "fixture_id", "content_hash"} <= j.fields.Keys
    && j.fields["pack_id"].JStr? && j.fields["fixture_id"].JInt? && j.fields["content_hash"].JStr?
  }

  function BindingOf(blob: map<string, Json>): Option<Binding>
    requires ReadableBinding(blob)
  {
    if "replay_binding" !in blob || blob["replay_binding"] == JNull then None
    else
      var f := blob["replay_binding"].fields;
      Some(Binding(f["pack_id"].s, f["fixture_id"].n, f["content_hash"].s))
  }

  predicate ReadableBinding(blob: map<string, Json>) {
    "replay_binding" in blob ==> blob["replay_binding"] == JNull || IsBindingJson(blob["replay_binding"])
  }

  /** A row written by this code or by an older version without riders. */
  predicate Readable(row: Row) {
    && CarriesConfig(row.configJson) && ReadableBinding(row.configJson)
    && ("owner_id" in row.configJson ==> row.configJson["owner_id"] == JNull || row.configJson["owner_id"].JStr?)
  }

  predicate AllReadable(rows: Rows) {
    forall id | id in rows :: Readable(rows[id])
  }

  /** _build_competition. */
  function Build(id: string, row: Row): Competition
    requires Readable(row)
  {
    Competition(id, ValidateConfig(row.configJson), row.status, row.entries, row.runId,
                OwnerOf(row.configJson), BindingOf(row.configJson))
  }

  /** What get_competition and list_competitions would return for every id. */
  function Abstraction(rows: Rows): Table
    requires AllReadable(rows)
  {
    map id | id in rows :: Build(id, rows[id])
  }

  // ---------------------------------------------------------------- row-level steps

  function InsertRow(c: Competition): Row {
    Row(Serialize(c.config, c.ownerId, c.binding), c.status, c.runId, c.entries)
  }

  /** The UPDATE a call makes on the row it locked, or the refusal. */
  function ApplyRow(row: Row, call: Call): Result<Row, Fault>
    requires !call.Create? && Readable(row)
  {
    match call
    case AddEntry(_, entry, mutable) =>
      if row.status !in mutable then Err(RosterFrozen)
      else
        var rosterSize := RosterSize(ValidateConfig(row.configJson - {"owner_id"}));
        if Registered(row.entries, entry.agentId) then Err(AlreadyRegistered)
        else if |row.entries| >= rosterSize then Err(RosterFull)
        else Ok(row.(entries := row.entries + [entry]))
    case UpdateStatus(_, status) => Ok(row.(status := status))
    case Claim(_, expected, next, runId) =>
      if row.status != expected then Err(StatusConflict) else Ok(row.(status := next, runId := Some(runId)))
    case Release(_, expected, next) =>
      if row.status != expected then Err(StatusConflict) else Ok(row.(status := next, runId := None))
    case UpdateRunId(_, runId) => Ok(row.(runId := Some(runId)))
    case UpdateConfig(_, config) =>
      Ok(row.(configJson := Serialize(config, OwnerOf(row.configJson), BindingOf(row.configJson))))
    case FreezeBinding(_, binding) =>
      if "replay_binding" in row.configJson && row.configJson["replay_binding"] != JNull then Ok(row)
      else
        var config := ValidateConfig(row.configJson - {"owner_id", "replay_binding"});
        Ok(row.(configJson := Serialize(config, OwnerOf(row.configJson), Some(binding))))
  }

  function StepRows(rows: Rows, call: Call): (Rows, Option<Fault>)
    requires AllReadable(rows)
  {
    var id := Target(call);
    if call.Create? then
      if id in rows then (rows, Some(AlreadyExists)) else (rows[id := InsertRow(call.competition)], None)
    else if id !in rows then (rows, Some(NoCompetition))
    else
      match ApplyRow(rows[id], call)
      case Err(fault) => (rows, Some(fault))
      case Ok(row) => (rows[id := row], None)
  }

  // ---------------------------------------------------------------- refinement

  /** Writing a config with its riders and reading it back is the identity. */
  lemma BuildInsert(c: Competition)
    ensures Readable(InsertRow(c)) && Build(c.id, InsertRow(c)) == c
  {
    var blob := Serialize(c.config, c.ownerId, c.binding);
    assert ValidateConfig(blob) == c.config;
  }

  /** The blob spelled out: the config's own fields, and the riders under their two keys. */
  lemma BlobIs(c: Competition)
    ensures var blob := InsertRow(c).configJson;
            && blob.Keys == c.config.Keys + {"owner_id", "replay_binding"}
            && (forall k | k in c.config :: blob[k] == c.config[k])
            && blob["owner_id"] == (if c.ownerId.Some? then JStr(c.ownerId.value) else JNull)
            && blob["replay_binding"]
               == if c.binding == None then JNull
                  else JObj(map["pack_id" := JStr(c.binding.value.packId),
                                "fixture_id" := JInt(c.binding.value.fixtureId),
                                "content_hash" := JStr(c.binding.value.contentHash)])
  {
  }

  lemma ValidateIgnoresRiders(blob: map<string, Json>, riders: set<string>)
    requires CarriesConfig(blob) && riders <= {"owner_id", "replay_binding"}
    ensures CarriesConfig(blob - riders) && ValidateConfig(blob - riders) == ValidateConfig(blob)
  {
  }

  lemma {:induction false} ApplyRowSimulates(id: string, row: Row, call: Call)
    requires !call.Create? && Readable(row)
    ensures match Apply(Build(id, row), call)
            case Err(fault) => ApplyRow(row, call) == Err(fault)
            case Ok(c) => ApplyRow(row, call).Ok? && Readable(ApplyRow(row, call).value)
                          && Build(id, ApplyRow(row, call).value) == c
  {
    ValidateIgnoresRiders(row.configJson, {"owner_id"});
    ValidateIgnoresRiders(row.configJson, {"owner_id", "replay_binding"});
    match call
    case UpdateConfig(_, config) =>
      BuildInsert(Build(id, row).(config := config));
    case FreezeBinding(_, binding) =>
      BuildInsert(Build(id, row).(binding := Some(binding)));
    case _ =>
  }

  /** One transaction does to the rows what the in-memory method does to the records, with its faults. */
  lemma StepSimulates(rows: Rows, call: Call)
    requires AllReadable(rows)
    ensures AllReadable(StepRows(rows, call).0)
    ensures Step(Abstraction(rows), call) == (Abstraction(StepRows(rows, call).0), StepRows(rows, call).1)
  {
    hide Build, InsertRow, Apply, ApplyRow, Readable;
    var id := Target(call);
    if call.Create? {
      BuildInsert(call.competition);
      if id !in rows {
        AbstractionUpdate(rows, id, InsertRow(call.competition));
      }
    } else if id in rows {
      ApplyRowSimulates(id, rows[id], call);
      if ApplyRow(rows[id], call).Ok? {
        AbstractionUpdate(rows, id, ApplyRow(rows[id], call).value);
      }
    }
  }

  lemma AbstractionUpdate(rows: Rows, id: string, row: Row)
    requires AllReadable(rows) && Readable(row)
    ensures AllReadable(rows[id := row])
    ensures Abstraction(rows[id := row]) == Abstraction(rows)[id := Build(id, row)]
  {
  }

  function RunRows(rows: Rows, calls: seq<Call>): (after: Rows)
    requires AllReadable(rows)
    ensures AllReadable(after)
  {
    if calls == [] then rows
    else
      var before := RunRows(rows, calls[..|calls| - 1]);
      StepSimulates(before, calls[|calls| - 1]);
      StepRows(before, calls[|calls| - 1]).0
  }

  /** Over any run the Postgres rows read back as the in-memory records. */
  lemma {:induction false} RunSimulates(rows: Rows, calls: seq<Call>)
    requires AllReadable(rows)
    ensures Abstraction(RunRows(rows, calls)) == Run(Abstraction(rows), calls)
  {
    if calls != [] {
      var before := calls[..|calls| - 1];
      RunSimulates(rows, before);
      StepSimulates(RunRows(rows, before), calls[|calls| - 1]);
    }
  }

  /** What the riders of a row are after any run of whole transactions. */
  lemma {:induction false} RidersAfter(rows: Rows, calls: seq<Call>, id: string)
    requires AllReadable(rows) && id in rows
    ensures var after := RunRows(rows, calls);
            && id in after && Readable(after[id]) && OwnerOf(after[id].configJson) == OwnerOf(rows[id].configJson)
            && BindingOf(after[id].configJson)
               == if BindingOf(rows[id].configJson).Some? then BindingOf(rows[id].configJson)
                  else FirstFrozen(calls, id)
  {
    hide FirstFrozen, Run, RunRows;
    RunSimulates(rows, calls);
    FirstBindingWinsForever(Abstraction(rows), calls, id);
    assert id in Abstraction(RunRows(rows, calls));
  }

  /** No sequence of whole transactions drops the owner or a frozen binding from the blob. */
  lemma {:induction false} RidersSurvive(rows: Rows, calls: seq<Call>, id: string)
    requires AllReadable(rows) && id in rows
    ensures id in RunRows(rows, calls)
    ensures OwnerOf(RunRows(rows, calls)[id].configJson) == OwnerOf(rows[id].configJson)
    ensures BindingOf(rows[id].configJson).Some? ==>
              BindingOf(RunRows(rows, calls)[id].configJson) == BindingOf(rows[id].configJson)
  {
    RidersAfter(rows, calls, id);
  }

  // ---------------------------------------------------------------- the unlocked config rewrite

  datatype Riders = Riders(owner: Option<string>, binding: Option<Binding>)

  /** SELECT config_json, with no FOR UPDATE: what the rewrite remembers. */
  function ReadRiders(row: Row): Riders
    requires Readable(row)
  {
    Riders(OwnerOf(row.configJson), BindingOf(row.configJson))
  }

  /** UPDATE config_json, with the riders remembered. */
  function WriteConfig(row: Row, config: Config, riders: Riders): Row {
    row.(configJson := Serialize(config, riders.owner, riders.binding))
  }

  /** Back to back, the read and the write are the one-step rewrite. */
  lemma RewriteInOneStep(row: Row, id: string, config: Config)
    requires Readable(row)
    ensures ApplyRow(row, UpdateConfig(id, config)) == Ok(WriteConfig(row, config, ReadRiders(row)))
  {
  }

  lemma WrittenRiders(row: Row, config: Config, riders: Riders)
    ensures Readable(WriteConfig(row, config, riders)) && ReadRiders(WriteConfig(row, config, riders)) == riders
  {
    BuildInsert(Competition("", config, row.status, row.entries, row.runId, riders.owner, riders.binding));
  }

  /**
   Whatever transactions commit between the read and the write of a config rewrite: the owner is kept, and
   the binding the row has by then is lost exactly when the read saw none and a freeze landed in between.
   */
  lemma RewriteLosesBindingExactly(rows: Rows, between: seq<Call>, id: string, config: Config)
    requires AllReadable(rows) && id in rows
    ensures id in RunRows(rows, between) && Readable(RunRows(rows, between)[id])
    ensures var row := RunRows(rows, between)[id];
            var after := WriteConfig(row, config, ReadRiders(rows[id]));
            && Readable(after) && OwnerOf(after.configJson) == OwnerOf(row.configJson)
            && (BindingOf(after.configJson) != BindingOf(row.configJson)
                <==> BindingOf(rows[id].configJson) == None && FirstFrozen(between, id).Some?)
  {
    hide RunRows, FirstFrozen, WriteConfig;
    RidersAfter(rows, between, id);
    WrittenRiders(RunRows(rows, between)[id], config, ReadRiders(rows[id]));
  }

  /** After such a loss the next freeze binds the competition anew, to whatever its caller replays. */
  lemma LostBindingIsReplaced(rows: Rows, id: string, config: Config, first: Binding, second: Binding)
    requires AllReadable(rows) && id in rows && BindingOf(rows[id].configJson) == None
    ensures var frozen := ApplyRow(rows[id], FreezeBinding(id, first));
            && frozen.Ok? && Readable(frozen.value) && BindingOf(frozen.value.configJson) == Some(first)
            && var rewritten := WriteConfig(frozen.value, config, ReadRiders(rows[id]));
               && Readable(rewritten)
               && var again := ApplyRow(rewritten, FreezeBinding(id, second));
                  && again.Ok? && Readable(again.value) && BindingOf(again.value.configJson) == Some(second)
  {
    hide Serialize;
    ApplyRowSimulates(id, rows[id], FreezeBinding(id, first));
    var frozen := ApplyRow(rows[id], FreezeBinding(id, first)).value;
    WrittenRiders(frozen, config, ReadRiders(rows[id]));
    ApplyRowSimulates(id, WriteConfig(frozen, config, ReadRiders(rows[id])), FreezeBinding(id, second));
  }
}
