/** The in-memory ledger object. */
module MutationLedger {
  import opened CanonicalJson
  import opened Text
  import opened Mutations
  import opened MutationOutcomes

  datatype OpenError = BlankStream | DuplicateSchemas | ForeignSnapshot | UnreadableSnapshot
  datatype OpenResult = Ready(ledger: MutationLedger) | Refused(error: OpenError)

  function SchemaMap(schemas: seq<Schema>): map<(string, int, string), Schema> {
    if schemas == [] then map[] else
      var n := |schemas| - 1;
      SchemaMap(schemas[..n])[(schemas[n].id, schemas[n].version, schemas[n].predicateName) := schemas[n]]
  }

  function OpenFault(stream: string, schemas: seq<Schema>, snapshot: Option<Snapshot>): Option<OpenError> {
    if !NotBlank(stream) then Some(BlankStream)
    else if |SchemaMap(schemas)| != |schemas| then Some(DuplicateSchemas)
    else if snapshot.Some? && snapshot.value.stream != stream then Some(ForeignSnapshot)
    else if snapshot.Some? && Materialize(snapshot.value.stateJson).None? then Some(UnreadableSnapshot)
    else None
  }

  function KeyOf(s: Schema): (string, int, string) { (s.id, s.version, s.predicateName) }

  function KeysUpTo(schemas: seq<Schema>, n: nat): set<(string, int, string)>
    requires n <= |schemas|
  {
    set i | 0 <= i < n :: KeyOf(schemas[i])
  }

  /** No two schemas agree in identifier, version and predicate. */
  ghost predicate Unique(schemas: seq<Schema>) {
    forall i, j :: 0 <= i < j < |schemas| ==>
      schemas[i].id != schemas[j].id || schemas[i].version != schemas[j].version
      || schemas[i].predicateName != schemas[j].predicateName
  }

  lemma {:induction false} CountKeys(schemas: seq<Schema>, n: nat)
    requires n <= |schemas|
    ensures |KeysUpTo(schemas, n)| <= n
    ensures |KeysUpTo(schemas, n)| == n <==> forall i, j :: 0 <= i < j < n ==> KeyOf(schemas[i]) != KeyOf(schemas[j])
  {
    if n > 0 {
      CountKeys(schemas, n - 1);
      var key := KeyOf(schemas[n - 1]);
      assert KeysUpTo(schemas, n) == KeysUpTo(schemas, n - 1) + {key};
      if key in KeysUpTo(schemas, n - 1) {
        assert KeysUpTo(schemas, n) == KeysUpTo(schemas, n - 1);
        var i :| 0 <= i < n - 1 && KeyOf(schemas[i]) == key;
      }
    }
  }

  lemma {:induction false} TableOf(schemas: seq<Schema>)
    ensures SchemaMap(schemas).Keys == KeysUpTo(schemas, |schemas|)
    ensures forall key :: key in SchemaMap(schemas) ==>
              SchemaMap(schemas)[key] in schemas && KeyOf(SchemaMap(schemas)[key]) == key
  {
    if schemas != [] {
      var n := |schemas| - 1;
      TableOf(schemas[..n]);
      assert KeysUpTo(schemas[..n], n) == KeysUpTo(schemas, n);
      assert KeysUpTo(schemas, n + 1) == KeysUpTo(schemas, n) + {KeyOf(schemas[n])};
    }
  }

  /** Unless two schemas agree, the table finds each one under its identifier, version and predicate, and nothing
      else. */
  lemma TableExactly(schemas: seq<Schema>, table: map<(string, int, string), Schema>)
    requires Unique(schemas) && table == SchemaMap(schemas)
    ensures forall s :: s in schemas ==> KeyOf(s) in table && table[KeyOf(s)] == s
    ensures forall key :: key in table ==>
              exists s :: s in schemas && (s.id, s.version, s.predicateName) == key && table[key] == s
  {
    TableOf(schemas);
    forall s | s in schemas ensures KeyOf(s) in table && table[KeyOf(s)] == s {
      var i :| 0 <= i < |schemas| && schemas[i] == s;
      assert KeyOf(schemas[i]) in KeysUpTo(schemas, |schemas|);
      var j :| 0 <= j < |schemas| && schemas[j] == table[KeyOf(s)];
      assert i == j;
    }
  }

  lemma CountsDifferIfRepeated(schemas: seq<Schema>)
    ensures |SchemaMap(schemas)| == |schemas| <==> Unique(schemas)
  {
    TableOf(schemas);
    CountKeys(schemas, |schemas|);
    assert |SchemaMap(schemas)| == |SchemaMap(schemas).Keys|;
  }

  /** A ledger opens exactly if its stream has a name, no two schemas agree, and the snapshot, if there is one, is
      its own and readable. */
  lemma OpensExactly(stream: string, schemas: seq<Schema>, snapshot: Option<Snapshot>)
    ensures OpenFault(stream, schemas, snapshot).None? <==>
              NotBlank(stream) && Unique(schemas)
              && (snapshot.Some? ==>
                    snapshot.value.stream == stream && Materialize(snapshot.value.stateJson).Some?)
  {
    CountsDifferIfRepeated(schemas);
  }

  method Open(stream: string, schemas: seq<Schema>, kindOf: string -> Option<Kind>, snapshot: Option<Snapshot>,
              digest: string -> string) returns (r: OpenResult)
    ensures match OpenFault(stream, schemas, snapshot)
            case Some(e) => r == Refused(e)
            case None => r.Ready? && fresh(r.ledger) && r.ledger.Valid() && r.ledger.digest == digest
                         && Opened(JsonCodec(digest), stream, Schemas(SchemaMap(schemas), kindOf), snapshot) ==
                           Some(r.ledger.View())
  {
    var fault := OpenFault(stream, schemas, snapshot);
    if fault.Some? { return Refused(fault.value); }
    var ledger := new MutationLedger(stream, Schemas(SchemaMap(schemas), kindOf), snapshot, digest);
    return Ready(ledger);
  }

  class MutationLedger {
    const stream: string
    const schemas: Schemas
    const digest: string -> string
    var snapshot: Option<Snapshot>
    var state: State
    var revision: int
    var mutations: seq<Mutation>
    var mutationIds: set<string>

    ghost predicate Valid() reads this { KeysMatch(state) }

    function View(): Ledger reads this {
      Ledger(stream, schemas, snapshot, state, revision, mutations, mutationIds)
    }

    constructor (stream: string, schemas: Schemas, snapshot: Option<Snapshot>, digest: string -> string)
      requires Opened(JsonCodec(digest), stream, schemas, snapshot).Some?
      ensures Valid() && this.digest == digest && Opened(JsonCodec(digest), stream, schemas, snapshot) == Some(View())
    {
      this.stream, this.schemas, this.digest, this.snapshot := stream, schemas, digest, snapshot;
      state := if snapshot.Some? then Materialize(snapshot.value.stateJson).value else map[];
      revision := if snapshot.Some? then snapshot.value.through else 0;
      mutations, mutationIds := [], {};
      new;
      if snapshot.Some? { MaterializeKeysMatch(Parse(snapshot.value.stateJson).value.items, 0, map[]); }
    }

    method Append(m: Mutation) returns (r: AppendResult)
      requires Valid() && m.Valid(schemas.kindOf)
      modifies this
      ensures Valid()
      ensures r == Decide(old(View()), m)
      ensures View() == AfterAppend(old(View()), m)
      ensures Answers(old(View()), m, r)
      ensures if InTurn(old(View()), m) && Acceptable(schemas, m) then Enters(old(View()), m, View())
              else View() == old(View())
    {
      AnswersExactly(View(), m);
      EntersExactly(View(), m);
      if m.id in mutationIds {
        return Reported(Report(m.id, revision, AlreadyCommitted, [PostCondition("idempotent_replay", true)]));
      }
      if m.stream != stream { return WrongStream; }
      if m.baseRevision != revision {
        return Reported(Report(m.id, revision, Conflict, [PostCondition("base_revision_matches", false)]));
      }
      var refusal := Refusal(schemas, m);
      if refusal.Some? { return Reported(Report(m.id, revision, Rejected, refusal.value)); }
      var key := m.Key();
      var value := m.value;
      if value.None? && key in state { value := state[key].value; }
      state := state[key := Materialized(m.entity, m.predicateName, StatusOf(m.op), value, m.authority, m.id, m.sources,
                                         schemas.table[m.SchemaKey()].retention)];
      mutations := mutations + [m];
      mutationIds := mutationIds + {m.id};
      revision := m.revision;
      return Reported(Report(m.id, revision, Committed,
        [PostCondition("base_revision_matches", true), PostCondition("schema_resolved", true),
         PostCondition("schema_value_valid", true), PostCondition("authority_within_schema_limit", true),
         PostCondition("canonical_state_matches", state[key].mutationId == m.id)]));
    }

    /** The round-trip guard is there, and never fires: there is no failing outcome. */
    method Compact() returns (r: Option<Snapshot>)
      requires Valid()
      modifies this
      ensures Valid() && r == Some(TakeSnapshot(JsonCodec(digest), old(View())))
      ensures View() == AfterCompact(JsonCodec(digest), old(View()))
    {
      var parent := if snapshot.Some? then Some(snapshot.value.id) else None;
      var taken := CreateSnapshot(JsonCodec(digest), stream, revision, state, MutationIds(mutations), parent);
      StateRoundTrip(state);
      if Materialize(taken.stateJson) != Some(state) { return None; }
      snapshot := Some(taken);
      mutations, mutationIds := [], {};
      return Some(taken);
    }
  }
}
