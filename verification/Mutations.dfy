/** Evidence-bound memory mutations, canonical snapshots, and the ledger that applies them. */
module Mutations {
  import opened CanonicalJson
  import opened Ordering
  import opened Text
  import opened Continuity

  // ---- text checks ----

  predicate IsSha256(s: string) {
    |s| == 64 && forall i :: 0 <= i < |s| ==> '0' <= s[i] <= '9' || 'a' <= s[i] <= 'f'
  }

  // ---- schemas and mutations ----

  datatype Operation = Assert | Dispute | Withdraw
  datatype Status = Active | Disputed | Withdrawn
  datatype Authority = Unauthorised | Inform | Act
  datatype ValueType = Text | Number | Boolean | Object | Array | Any

  function Rank(a: Authority): nat {
    match a case Unauthorised => 0 case Inform => 1 case Act => 2
  }

  function StatusOf(op: Operation): Status {
    match op case Assert => Active case Dispute => Disputed case Withdraw => Withdrawn
  }

  /** What `json.loads` makes of a text. */
  datatype Kind = NullKind | BooleanKind | NumberKind | TextKind | ArrayKind | ObjectKind

  datatype Schema = Schema(id: string, version: int, predicateName: string, valueType: ValueType,
                           maxAuthority: Authority, retention: RetentionClass)
  {
    predicate Accepts(kind: Kind) {
      match valueType
      case Text => kind.TextKind?
      case Number => kind.NumberKind?
      case Boolean => kind.BooleanKind?
      case Object => kind.ObjectKind?
      case Array => kind.ArrayKind?
      case Any => true
    }
  }

  type Key = (string, string)
  type Sources = seq<(string, string)>

  /** The schemas of a ledger, and how it reads the text of a value: its kind, or nothing if it is not JSON.
      The reader is any function, so that fractions and white space may be read as the source reads them. */
  datatype Schemas = Schemas(table: map<(string, int, string), Schema>, kindOf: string -> Option<Kind>)

  datatype Mutation = Mutation(id: string, stream: string, revision: int, baseRevision: int,
                               op: Operation, entity: string, predicateName: string, value: Option<string>,
                               schemaId: string, schemaVersion: int, sources: Sources,
                               authority: Authority, recordedAt: string)
  {
    predicate Valid(kindOf: string -> Option<Kind>) {
      && NotBlank(id) && NotBlank(stream) && NotBlank(entity) && NotBlank(predicateName) && NotBlank(schemaId)
      && revision >= 1 && baseRevision == revision - 1 && schemaVersion >= 1
      && sources != []
      && (forall i :: 0 <= i < |sources| ==> NotBlank(sources[i].0) && IsSha256(sources[i].1))
      && (op.Assert? ==> value.Some?)
      && (value.Some? ==> kindOf(value.value).Some?)
    }

    function Key(): Key { (entity, predicateName) }
    function SchemaKey(): (string, int, string) { (schemaId, schemaVersion, predicateName) }
  }

  // ---- state ----

  datatype Materialized = Materialized(entity: string, predicateName: string, status: Status,
                                       value: Option<string>, authority: Authority, mutationId: string,
                                       sources: Sources, retention: RetentionClass)

  type State = map<Key, Materialized>

  /** What one committed mutation does to the state: a value it does not carry stays. */
  function Apply(state: State, m: Mutation, retention: RetentionClass): State {
    var value := if m.value.None? && m.Key() in state then state[m.Key()].value else m.value;
    state[m.Key() := Materialized(m.entity, m.predicateName, StatusOf(m.op), value, m.authority, m.id, m.sources,
                                  retention)]
  }

  // ---- the ledger's operations, on values ----

  datatype PostCondition = PostCondition(name: string, passed: bool)

  datatype Outcome = Committed | AlreadyCommitted | Conflict | Rejected

  datatype Report = Report(mutationId: string, revision: int, outcome: Outcome, checks: seq<PostCondition>)

  datatype AppendResult = Reported(report: Report) | WrongStream

  datatype Ledger = Ledger(stream: string, schemas: Schemas, snapshot: Option<Snapshot>, state: State,
                           revision: int, mutations: seq<Mutation>, ids: set<string>)

  predicate AcceptsText(schema: Schema, kindOf: string -> Option<Kind>, value: Option<string>) {
    value.Some? && kindOf(value.value).Some? && schema.Accepts(kindOf(value.value).value)
  }

  /** Why a mutation that is on the right stream and revision is still refused, if it is. */
  function Refusal(schemas: Schemas, m: Mutation): Option<seq<PostCondition>> {
    if m.SchemaKey() !in schemas.table then Some([PostCondition("schema_resolved", false)]) else
      var schema := schemas.table[m.SchemaKey()];
      if Rank(m.authority) > Rank(schema.maxAuthority) then
        Some([PostCondition("schema_resolved", true), PostCondition("authority_within_schema_limit", false)])
      else if m.op.Assert? && !AcceptsText(schema, schemas.kindOf, m.value) then
        Some([PostCondition("schema_resolved", true), PostCondition("schema_value_valid", false)])
      else None
  }

  /** The outcome of an append, without its effect. */
  function Decide(l: Ledger, m: Mutation): AppendResult {
    if m.id in l.ids then
      Reported(Report(m.id, l.revision, AlreadyCommitted, [PostCondition("idempotent_replay", true)]))
    else if m.stream != l.stream then WrongStream
    else if m.baseRevision != l.revision then
      Reported(Report(m.id, l.revision, Conflict, [PostCondition("base_revision_matches", false)]))
    else match Refusal(l.schemas, m)
      case Some(checks) => Reported(Report(m.id, l.revision, Rejected, checks))
      case None =>
        Reported(Report(m.id, m.revision, Committed,
          [PostCondition("base_revision_matches", true), PostCondition("schema_resolved", true),
           PostCondition("schema_value_valid", true), PostCondition("authority_within_schema_limit", true),
           PostCondition("canonical_state_matches", true)]))
  }

  predicate Commits(l: Ledger, m: Mutation) {
    m.id !in l.ids && m.stream == l.stream && m.baseRevision == l.revision && Refusal(l.schemas, m).None?
  }

  function AfterAppend(l: Ledger, m: Mutation): Ledger {
    if !Commits(l, m) then l else
      l.(state := Apply(l.state, m, l.schemas.table[m.SchemaKey()].retention), revision := m.revision,
         mutations := l.mutations + [m], ids := l.ids + {m.id})
  }

  function MutationIds(mutations: seq<Mutation>): (ids: seq<string>)
    ensures |ids| == |mutations| && forall i :: 0 <= i < |ids| ==> ids[i] == mutations[i].id
  {
    seq(|mutations|, i requires 0 <= i < |mutations| => mutations[i].id)
  }

  /** How snapshots are written, read and named. */
  datatype Codec = Codec(encode: State -> string, decode: string -> Option<State>, chain: seq<string> -> string,
                         name: (string, int, string, string, Option<string>) -> string)

  function CreateSnapshot(codec: Codec, stream: string, through: int, state: State, ids: seq<string>,
                          parent: Option<string>): Snapshot {
    var stateJson, chainSha := codec.encode(state), codec.chain(ids);
    Snapshot(codec.name(stream, through, stateJson, chainSha, parent), stream, through, stateJson, chainSha, parent)
  }

  function ParentId(l: Ledger): Option<string> { if l.snapshot.Some? then Some(l.snapshot.value.id) else None }

  function TakeSnapshot(codec: Codec, l: Ledger): Snapshot {
    CreateSnapshot(codec, l.stream, l.revision, l.state, MutationIds(l.mutations), ParentId(l))
  }

  /** `compact` when its round-trip guard lets the snapshot through. */
  function AfterCompact(codec: Codec, l: Ledger): Ledger {
    l.(snapshot := Some(TakeSnapshot(codec, l)), mutations := [], ids := {})
  }

  function Opened(codec: Codec, stream: string, schemas: Schemas, snapshot: Option<Snapshot>): Option<Ledger> {
    match snapshot
    case None => Some(Ledger(stream, schemas, None, map[], 0, [], {}))
    case Some(s) =>
      if s.stream != stream || codec.decode(s.stateJson).None? then None
      else Some(Ledger(stream, schemas, snapshot, codec.decode(s.stateJson).value, s.through, [], {}))
  }

  // ---- snapshots ----

  datatype Snapshot = Snapshot(id: string, stream: string, through: int, stateJson: string,
                               chainSha: string, parent: Option<string>)

  function OptionJson(o: Option<string>): Json { if o.Some? then Str(o.value) else Null }

  function SourceJson(s: (string, string)): Json { Arr([Str(s.0), Str(s.1)]) }

  function SourcesJson(sources: Sources): (v: Json)
    ensures v.Arr? && |v.items| == |sources| && forall i :: 0 <= i < |sources| ==> v.items[i] == SourceJson(sources[i])
  {
    Arr(seq(|sources|, i requires 0 <= i < |sources| => SourceJson(sources[i])))
  }

  function StatusText(s: Status): string {
    match s case Active => "active" case Disputed => "disputed" case Withdrawn => "withdrawn"
  }

  function AuthorityText(a: Authority): string {
    match a case Unauthorised => "none" case Inform => "inform" case Act => "act"
  }

  function RetentionText(r: RetentionClass): string {
    match r case Transient => "transient" case Episodic => "episodic" case Durable => "durable" case Core => "core"
  }

  function RowJson(item: Materialized): Json {
    Obj(map["entity_id" := Str(item.entity), "predicate" := Str(item.predicateName),
            "status" := Str(StatusText(item.status)), "value_json" := OptionJson(item.value),
            "authority" := Str(AuthorityText(item.authority)), "mutation_id" := Str(item.mutationId),
            "source_event_revisions" := SourcesJson(item.sources),
            "retention_class" := Str(RetentionText(item.retention))])
  }

  function SortedKeys(state: State): (ks: seq<Key>)
    ensures forall k :: k in ks <==> k in state
    ensures Distinct(ks)
  {
    PairLeqIsTotalOrder();
    SortSet(state.Keys, PairLeq)
  }

  function RowsOf(state: State, ks: seq<Key>): (rows: seq<Json>)
    requires forall k :: k in ks ==> k in state
    ensures |rows| == |ks| && forall i :: 0 <= i < |ks| ==> rows[i] == RowJson(state[ks[i]])
  {
    seq(|ks|, i requires 0 <= i < |ks| => RowJson(state[ks[i]]))
  }

  function StateJson(state: State): string { Print(Arr(RowsOf(state, SortedKeys(state)))) }

  function IdsJson(ids: seq<string>): (v: Json)
    ensures v.Arr? && |v.items| == |ids| && forall i :: 0 <= i < |ids| ==> v.items[i] == Str(ids[i])
  {
    Arr(seq(|ids|, i requires 0 <= i < |ids| => Str(ids[i])))
  }

  /** The payload whose digest names a snapshot. */
  function SnapshotJson(stream: string, through: int, stateJson: string, chainSha: string,
                        parent: Option<string>): Json {
    Obj(map["stream_id" := Str(stream), "through_revision" := Num(through), "state_json" := Str(stateJson),
            "mutation_chain_sha256" := Str(chainSha), "parent_snapshot_id" := OptionJson(parent)])
  }

  /** The codec of the source: canonical JSON, and a digest of it. */
  function JsonCodec(digest: string -> string): Codec {
    Codec((state: State) => StateJson(state), (text: string) => Materialize(text),
          (ids: seq<string>) => digest(Print(IdsJson(ids))),
          (stream: string, through: int, stateJson: string, chainSha: string, parent: Option<string>) =>
            digest(Print(SnapshotJson(stream, through, stateJson, chainSha, parent))))
  }

  function Field(row: Json, name: string): Option<Json>
    requires row.Obj?
  {
    if name in row.fields then Some(row.fields[name]) else None
  }

  function StatusFrom(s: string): Option<Status> {
    if s == "active" then Some(Active) else if s == "disputed" then Some(Disputed)
    else if s == "withdrawn" then Some(Withdrawn) else None
  }

  function AuthorityFrom(s: string): Option<Authority> {
    if s == "none" then Some(Unauthorised) else if s == "inform" then Some(Inform)
    else if s == "act" then Some(Act) else None
  }

  function RetentionFrom(s: string): Option<RetentionClass> {
    if s == "transient" then Some(Transient) else if s == "episodic" then Some(Episodic)
    else if s == "durable" then Some(Durable) else if s == "core" then Some(Core) else None
  }

  function SourceFrom(v: Json): Option<(string, string)> {
    if v.Arr? && |v.items| == 2 && v.items[0].Str? && v.items[1].Str? then Some((v.items[0].s, v.items[1].s)) else None
  }

  function SourcesFrom(items: seq<Json>): Option<Sources> {
    if items == [] then Some([]) else
      match (SourceFrom(items[0]), SourcesFrom(items[1..]))
      case (Some(s), Some(rest)) => Some([s] + rest)
      case _ => None
  }

  function TextFrom(v: Option<Json>): Option<string> {
    if v.Some? && v.value.Str? then Some(v.value.s) else None
  }

  function RowItem(row: Json): Option<Materialized> {
    if !row.Obj? then None else
      var entity, name := TextFrom(Field(row, "entity_id")), TextFrom(Field(row, "predicate"));
      var id := TextFrom(Field(row, "mutation_id"));
      var status, authority := TextFrom(Field(row, "status")), TextFrom(Field(row, "authority"));
      var retention := if Field(row, "retention_class").None? then Some("durable")
                       else TextFrom(Field(row, "retention_class"));
      var sources, value := Field(row, "source_event_revisions"), Field(row, "value_json");
      if entity.None? || name.None? || id.None? || status.None? || authority.None? || retention.None? then None
      else if sources.None? || !sources.value.Arr? || (value.Some? && !value.value.Str? && !value.value.Null?) then None
      else ItemFrom(entity.value, name.value, StatusFrom(status.value), TextFrom(value), AuthorityFrom(authority.value),
                    id.value, SourcesFrom(sources.value.items), RetentionFrom(retention.value))
  }

  function ItemFrom(entity: string, name: string, status: Option<Status>, value: Option<string>,
                    authority: Option<Authority>,
                    id: string, sources: Option<Sources>, retention: Option<RetentionClass>): Option<Materialized> {
    if status.None? || authority.None? || sources.None? || retention.None? then None
    else Some(Materialized(entity, name, status.value, value, authority.value, id, sources.value, retention.value))
  }

  /** The loop of `materialize`: a repeated key keeps its last row. */
  function MaterializeFrom(rows: seq<Json>, i: nat, state: State): Option<State>
    requires i <= |rows|
    decreases |rows| - i
  {
    if i == |rows| then Some(state) else
      match RowItem(rows[i])
      case None => None
      case Some(item) => MaterializeFrom(rows, i + 1, state[(item.entity, item.predicateName) := item])
  }

  function Materialize(stateJson: string): Option<State> {
    match Parse(stateJson)
    case Some(Arr(rows)) => MaterializeFrom(rows, 0, map[])
    case _ => None
  }

  // ---- the round trip ----

  ghost predicate KeysMatch(state: State) {
    forall k :: k in state ==> (state[k].entity, state[k].predicateName) == k
  }

  lemma {:induction false} SourcesRoundTrip(sources: Sources, items: seq<Json>)
    requires |items| == |sources| && forall i :: 0 <= i < |items| ==> items[i] == SourceJson(sources[i])
    ensures SourcesFrom(items) == Some(sources)
  {
    if sources != [] {
      SourcesRoundTrip(sources[1..], items[1..]);
      assert sources == [sources[0]] + sources[1..];
    }
  }

  lemma RowFields(item: Materialized)
    ensures var row := RowJson(item);
            && Field(row, "entity_id") == Some(Str(item.entity))
            && Field(row, "predicate") == Some(Str(item.predicateName))
            && Field(row, "status") == Some(Str(StatusText(item.status)))
            && Field(row, "value_json") == Some(OptionJson(item.value))
            && Field(row, "authority") == Some(Str(AuthorityText(item.authority)))
            && Field(row, "mutation_id") == Some(Str(item.mutationId))
            && Field(row, "source_event_revisions") == Some(SourcesJson(item.sources))
            && Field(row, "retention_class") == Some(Str(RetentionText(item.retention)))
  {
  }

  lemma TagsRoundTrip(s: Status, a: Authority, r: RetentionClass)
    ensures StatusFrom(StatusText(s)) == Some(s) && AuthorityFrom(AuthorityText(a)) == Some(a)
    ensures RetentionFrom(RetentionText(r)) == Some(r)
  {
  }

  lemma RowRoundTrip(item: Materialized)
    ensures RowItem(RowJson(item)) == Some(item)
  {
    RowFields(item);
    TagsRoundTrip(item.status, item.authority, item.retention);
    SourcesRoundTrip(item.sources, SourcesJson(item.sources).items);
  }

  lemma {:induction false} MaterializeRows(state: State, ks: seq<Key>, i: nat, acc: State)
    requires KeysMatch(state) && (forall k :: k in ks ==> k in state) && i <= |ks|
    requires forall k :: k in acc ==> k in state && acc[k] == state[k]
    requires forall k :: k in state ==> k in acc || k in ks[i..]
    ensures MaterializeFrom(RowsOf(state, ks), i, acc) == Some(state)
    decreases |ks| - i
  {
    if i == |ks| {
      assert acc == state;
    } else {
      var k := ks[i];
      RowRoundTrip(state[k]);
      assert ks[i..] == [k] + ks[i + 1..];
      MaterializeRows(state, ks, i + 1, acc[k := state[k]]);
    }
  }

  /** `materialize` undoes `create`: what a snapshot holds is the state it was taken of. */
  lemma StateRoundTrip(state: State)
    requires KeysMatch(state)
    ensures Materialize(StateJson(state)) == Some(state)
  {
    var ks := SortedKeys(state);
    var rows := RowsOf(state, ks);
    RoundTrip(Arr(rows));
    assert ks[0..] == ks;
    MaterializeRows(state, ks, 0, map[]);
  }

  ghost predicate RoundTrips(codec: Codec) {
    forall state :: KeysMatch(state) ==> codec.decode(codec.encode(state)) == Some(state)
  }

  lemma JsonCodecRoundTrips(digest: string -> string)
    ensures RoundTrips(JsonCodec(digest))
  {
    forall state | KeysMatch(state)
      ensures JsonCodec(digest).decode(JsonCodec(digest).encode(state)) == Some(state)
    {
      StateRoundTrip(state);
    }
  }

  /** The canonical text does not depend on the order in which keys entered the dictionary. */
  lemma InsertionOrderForgotten(state: State, inserted: seq<Key>)
    requires Distinct(inserted) && forall k :: k in inserted <==> k in state
    ensures Sort(inserted, PairLeq) == SortedKeys(state)
    ensures StateJson(state) == Print(Arr(RowsOf(state, Sort(inserted, PairLeq))))
  {
    PairLeqIsTotalOrder();
    SortCorrect(inserted, PairLeq);
    SortElements(inserted, PairLeq);
    SortedUnique(Sort(inserted, PairLeq), SortedKeys(state), PairLeq);
  }

  /** And it determines the state. */
  lemma StateJsonInjective(state: State, state': State)
    requires KeysMatch(state) && KeysMatch(state') && StateJson(state) == StateJson(state')
    ensures state == state'
  {
    StateRoundTrip(state);
    StateRoundTrip(state');
  }

  lemma {:induction false} MaterializeKeysMatch(rows: seq<Json>, i: nat, state: State)
    requires i <= |rows| && KeysMatch(state) && MaterializeFrom(rows, i, state).Some?
    ensures KeysMatch(MaterializeFrom(rows, i, state).value)
    decreases |rows| - i
  {
    if i < |rows| {
      var item := RowItem(rows[i]).value;
      MaterializeKeysMatch(rows, i + 1, state[(item.entity, item.predicateName) := item]);
    }
  }

  // ---- mutation identifiers ----

  function OperationText(op: Operation): string {
    match op case Assert => "assert" case Dispute => "dispute" case Withdraw => "withdraw"
  }

  /** The payload whose digest names a mutation. */
  function MutationJson(m: Mutation): Json {
    Obj(map["stream_id" := Str(m.stream), "revision" := Num(m.revision), "base_revision" := Num(m.baseRevision),
            "operation" := Str(OperationText(m.op)), "entity_id" := Str(m.entity), "predicate" := Str(m.predicateName),
            "value_json" := OptionJson(m.value), "schema_id" := Str(m.schemaId),
            "schema_version" := Num(m.schemaVersion),
            "source_event_revisions" := SourcesJson(m.sources), "authority" := Str(AuthorityText(m.authority)),
            "recorded_at" := Str(m.recordedAt)])
  }

  /** The mutations that `create` makes: the revision follows the base, the id is the digest. */
  predicate Created(digest: string -> string, m: Mutation) {
    m.revision == m.baseRevision + 1 && m.id == digest(Print(MutationJson(m)))
  }

  predicate Collides(digest: string -> string, a: string, b: string) { a != b && digest(a) == digest(b) }

  ghost predicate HasFields(fields: map<string, Json>, m: Mutation) {
    && {"stream_id", "revision", "base_revision", "operation", "entity_id", "predicate", "value_json", "schema_id",
        "schema_version", "source_event_revisions", "authority", "recorded_at"} <= fields.Keys
    && fields["stream_id"] == Str(m.stream) && fields["revision"] == Num(m.revision)
    && fields["base_revision"] == Num(m.baseRevision) && fields["operation"] == Str(OperationText(m.op))
    && fields["entity_id"] == Str(m.entity) && fields["predicate"] == Str(m.predicateName)
    && fields["value_json"] == OptionJson(m.value) && fields["schema_id"] == Str(m.schemaId)
    && fields["schema_version"] == Num(m.schemaVersion) && fields["source_event_revisions"] == SourcesJson(m.sources)
    && fields["authority"] == Str(AuthorityText(m.authority)) && fields["recorded_at"] == Str(m.recordedAt)
  }

  lemma MutationFields(m: Mutation)
    ensures HasFields(MutationJson(m).fields, m)
  {
  }

  lemma OperationTextInjective(op: Operation, op': Operation)
    requires OperationText(op) == OperationText(op')
    ensures op == op'
  {
    assert OperationText(op)[0] == OperationText(op')[0];
  }

  lemma FieldsDetermine(fields: map<string, Json>, m: Mutation, m': Mutation)
    requires HasFields(fields, m) && HasFields(fields, m') && m.id == m'.id
    ensures m == m'
  {
    SourcesRoundTrip(m.sources, SourcesJson(m.sources).items);
    SourcesRoundTrip(m'.sources, SourcesJson(m'.sources).items);
    TagsRoundTrip(Active, m.authority, Core);
    TagsRoundTrip(Active, m'.authority, Core);
    OperationTextInjective(m.op, m'.op);
    assert OptionJson(m.value) == OptionJson(m'.value);
  }

  /** Mutations made by `create` share an identifier only if they are the same mutation, or the
      digest collides on their payloads. */
  lemma CreatedIdsBind(digest: string -> string, m: Mutation, m': Mutation)
    requires Created(digest, m) && Created(digest, m') && m.id == m'.id
    ensures m == m' || Collides(digest, Print(MutationJson(m)), Print(MutationJson(m')))
  {
    if Print(MutationJson(m)) == Print(MutationJson(m')) {
      PrintInjective(MutationJson(m), MutationJson(m'));
      MutationFields(m);
      MutationFields(m');
      FieldsDetermine(MutationJson(m).fields, m, m');
    }
  }

  // ---- bindings to edited events ----

  predicate Bound(item: Materialized, current: map<string, string>) {
    forall i :: 0 <= i < |item.sources| ==>
      item.sources[i].0 in current && current[item.sources[i].0] == item.sources[i].1
  }

  /** The identifiers of the mutations whose evidence is no longer what they cited. */
  function InvalidSourceBindings(state: State, current: map<string, string>): (ids: seq<string>)
    ensures Sorted(ids, StrLeq) && Distinct(ids)
    ensures forall id :: id in ids <==> exists k :: k in state && !Bound(state[k], current) && state[k].mutationId == id
  {
    StrLeqIsTotalOrder();
    SortSet(set k | k in state && !Bound(state[k], current) :: state[k].mutationId, StrLeq)
  }
}
