/** When a mutation commits, why it is refused, and what a commit enters. */
module MutationOutcomes {
  import opened CanonicalJson
  import Continuity
  import opened Mutations

  // ---- what a schema admits ----

  /** Authorities rise from none over inform to act. */
  predicate NoMoreThan(a: Authority, limit: Authority) { a == limit || a.Unauthorised? || limit.Act? }

  predicate OfType(kind: Kind, t: ValueType) {
    t.Any? || (t.Text? && kind.TextKind?) || (t.Number? && kind.NumberKind?) || (t.Boolean? && kind.BooleanKind?)
    || (t.Object? && kind.ObjectKind?) || (t.Array? && kind.ArrayKind?)
  }

  predicate Known(schemas: Schemas, m: Mutation) { (m.schemaId, m.schemaVersion, m.predicateName) in schemas.table }

  predicate Authorised(schemas: Schemas, m: Mutation)
    requires Known(schemas, m)
  {
    NoMoreThan(m.authority, schemas.table[(m.schemaId, m.schemaVersion, m.predicateName)].maxAuthority)
  }

  /** Only an assertion's value is looked at. */
  predicate WellTyped(schemas: Schemas, m: Mutation)
    requires Known(schemas, m)
  {
    m.op.Assert? ==>
      && m.value.Some? && schemas.kindOf(m.value.value).Some?
      && OfType(schemas.kindOf(m.value.value).value,
                schemas.table[(m.schemaId, m.schemaVersion, m.predicateName)].valueType)
  }

  predicate Acceptable(schemas: Schemas, m: Mutation) {
    Known(schemas, m) && Authorised(schemas, m) && WellTyped(schemas, m)
  }

  predicate InTurn(l: Ledger, m: Mutation) {
    m.id !in l.ids && m.stream == l.stream && m.baseRevision == l.revision
  }

  // ---- what an append answers ----

  predicate Named(checks: seq<PostCondition>, names: seq<string>) {
    |checks| == |names| && forall i :: 0 <= i < |names| ==> checks[i].name == names[i]
  }

  /** All checks but the last one passed. */
  predicate FailsAt(checks: seq<PostCondition>, names: seq<string>) {
    Named(checks, names) && names != []
    && forall i :: 0 <= i < |checks| ==> (checks[i].passed <==> i < |checks| - 1)
  }

  /** Which check a rejection names. */
  ghost predicate Explains(schemas: Schemas, m: Mutation, checks: seq<PostCondition>) {
    && (FailsAt(checks, ["schema_resolved"]) <==> !Known(schemas, m))
    && (FailsAt(checks, ["schema_resolved", "authority_within_schema_limit"]) <==>
          Known(schemas, m) && !Authorised(schemas, m))
    && (FailsAt(checks, ["schema_resolved", "schema_value_valid"]) <==>
          Known(schemas, m) && Authorised(schemas, m) && !WellTyped(schemas, m))
  }

  ghost predicate Answers(l: Ledger, m: Mutation, r: AppendResult) {
    && (r.WrongStream? <==> m.id !in l.ids && m.stream != l.stream)
    && (r.Reported? ==>
          var report, checks := r.report, r.report.checks;
          && report.mutationId == m.id
          && report.revision == (if report.outcome.Committed? then l.revision + 1 else l.revision)
          && (report.outcome.AlreadyCommitted? <==> m.id in l.ids)
          && (report.outcome.Conflict? <==> m.id !in l.ids && m.stream == l.stream && m.baseRevision != l.revision)
          && (report.outcome.Rejected? <==> InTurn(l, m) && !Acceptable(l.schemas, m))
          && (report.outcome.Committed? <==> InTurn(l, m) && Acceptable(l.schemas, m))
          && (report.outcome.Rejected? ==> Explains(l.schemas, m, checks))
          && (report.outcome.Conflict? ==> FailsAt(checks, ["base_revision_matches"]))
          && (report.outcome.AlreadyCommitted? ==> checks == [PostCondition("idempotent_replay", true)])
          && (report.outcome.Committed? ==>
                Named(checks, ["base_revision_matches", "schema_resolved", "schema_value_valid",
                               "authority_within_schema_limit", "canonical_state_matches"])
                && forall i :: 0 <= i < |checks| ==> checks[i].passed))
  }

  // ---- what a commit enters ----

  /** The mutation is remembered, and its fact is the only thing that changes in the state. */
  ghost predicate Enters(l: Ledger, m: Mutation, l': Ledger) {
    var key := (m.entity, m.predicateName);
    && l'.revision == l.revision + 1 && l'.mutations == l.mutations + [m] && l'.ids == l.ids + {m.id}
    && l'.stream == l.stream && l'.schemas == l.schemas && l'.snapshot == l.snapshot
    && key in l'.state && (forall k :: k != key ==> (k in l'.state <==> k in l.state))
    && (forall k :: k != key && k in l.state ==> l'.state[k] == l.state[k])
    && HoldsFact(l, m, l'.state[key])
  }

  /** An assertion makes the fact active, a dispute disputed and a withdrawal withdrawn; a value that the
      mutation does not carry stays as it was. */
  predicate HoldsFact(l: Ledger, m: Mutation, item: Materialized) {
    var key, schema := (m.entity, m.predicateName), (m.schemaId, m.schemaVersion, m.predicateName);
    && item.entity == m.entity && item.predicateName == m.predicateName
    && (item.status.Active? <==> m.op.Assert?) && (item.status.Disputed? <==> m.op.Dispute?)
    && (item.status.Withdrawn? <==> m.op.Withdraw?)
    && (m.value.Some? ==> item.value == m.value)
    && (m.value.None? ==> item.value == if key in l.state then l.state[key].value else None)
    && item.authority == m.authority && item.mutationId == m.id && item.sources == m.sources
    && schema in l.schemas.table && item.retention == l.schemas.table[schema].retention
  }

  // ---- the ledger does so ----

  lemma RefusalExplains(schemas: Schemas, m: Mutation)
    ensures Refusal(schemas, m).None? <==> Acceptable(schemas, m)
    ensures Refusal(schemas, m).Some? ==> Explains(schemas, m, Refusal(schemas, m).value)
  {
    var r := Refusal(schemas, m);
    if r.Some? {
      var checks := r.value;
      assert FailsAt(checks, ["schema_resolved"]) <==> |checks| == 1;
      assert FailsAt(checks, ["schema_resolved", "authority_within_schema_limit"]) <==>
             |checks| == 2 && checks[1].name == "authority_within_schema_limit";
      assert FailsAt(checks, ["schema_resolved", "schema_value_valid"]) <==>
             |checks| == 2 && checks[1].name == "schema_value_valid";
    }
  }

  /** A valid mutation commits if and only if it is new, in turn and acceptable; every other answer has its own
      exact condition, and a rejection names the first check that failed. */
  lemma AnswersExactly(l: Ledger, m: Mutation)
    requires m.Valid(l.schemas.kindOf)
    ensures Answers(l, m, Decide(l, m))
    ensures Commits(l, m) <==> InTurn(l, m) && Acceptable(l.schemas, m)
  {
    RefusalExplains(l.schemas, m);
  }

  /** What it leaves behind: the fact with the status of its operation, and nothing at all without a commit. */
  lemma EntersExactly(l: Ledger, m: Mutation)
    requires m.Valid(l.schemas.kindOf)
    ensures if InTurn(l, m) && Acceptable(l.schemas, m) then Enters(l, m, AfterAppend(l, m)) else AfterAppend(l, m) == l
  {
    RefusalExplains(l.schemas, m);
  }

  /** A mutation is reported exactly if a fact it left behind cites an event that is gone or has another digest now. */
  lemma OutdatedExactly(state: State, current: map<string, string>, id: string)
    ensures id in InvalidSourceBindings(state, current) <==>
            exists k, i :: k in state && 0 <= i < |state[k].sources| && state[k].mutationId == id
                           && var (event, sha) := state[k].sources[i]; event !in current || current[event] != sha
  {
    if id in InvalidSourceBindings(state, current) {
      var k :| k in state && !Bound(state[k], current) && state[k].mutationId == id;
      var i :| 0 <= i < |state[k].sources|
               && !(state[k].sources[i].0 in current && current[state[k].sources[i].0] == state[k].sources[i].1);
      var (event, sha) := state[k].sources[i];
      assert event !in current || current[event] != sha;
    }
  }

  // ---- what a snapshot reads back as ----

  /** A row written before retention classes existed counts as durable. */
  lemma LegacyRowIsDurable(item: Materialized, row: Json)
    requires row.Obj? && row.fields == RowJson(item).fields - {"retention_class"}
    ensures RowItem(row) == Some(item.(retention := Continuity.Durable))
  {
    RowFields(item);
    TagsRoundTrip(item.status, item.authority, item.retention);
    SourcesRoundTrip(item.sources, SourcesJson(item.sources).items);
  }

  ghost predicate IsRowOf(rows: seq<Json>, n: int, k: Key) {
    0 <= n < |rows| && RowItem(rows[n]).Some?
    && (RowItem(rows[n]).value.entity, RowItem(rows[n]).value.predicateName) == k
  }

  /** The n-th row is the last about its key. */
  ghost predicate IsLastOf(rows: seq<Json>, n: int, k: Key) {
    IsRowOf(rows, n, k) && forall j :: n < j < |rows| ==> !IsRowOf(rows, j, k)
  }

  /** A snapshot is readable exactly if all its rows are. */
  lemma {:induction false} ReadableExactly(rows: seq<Json>, i: nat, state: State)
    requires i <= |rows|
    ensures MaterializeFrom(rows, i, state).Some? <==> forall j :: i <= j < |rows| ==> RowItem(rows[j]).Some?
    decreases |rows| - i
  {
    if i < |rows| && RowItem(rows[i]).Some? {
      var item := RowItem(rows[i]).value;
      ReadableExactly(rows, i + 1, state[(item.entity, item.predicateName) := item]);
    }
  }

  /** Rows about other keys leave a key as it was. */
  lemma {:induction false} OtherRowsLeaveIt(rows: seq<Json>, i: nat, state: State, k: Key)
    requires i <= |rows| && MaterializeFrom(rows, i, state).Some?
    requires forall n :: i <= n < |rows| ==> !IsRowOf(rows, n, k)
    ensures var read := MaterializeFrom(rows, i, state).value;
            (k in read <==> k in state) && (k in state ==> read[k] == state[k])
    decreases |rows| - i
  {
    if i < |rows| {
      var item := RowItem(rows[i]).value;
      assert !IsRowOf(rows, i, k);
      OtherRowsLeaveIt(rows, i + 1, state[(item.entity, item.predicateName) := item], k);
    }
  }

  /** Of several rows with one key the last one stands. */
  lemma {:induction false} LastRowStands(rows: seq<Json>, i: nat, state: State, n: nat, k: Key)
    requires i <= n < |rows| && MaterializeFrom(rows, i, state).Some? && IsLastOf(rows, n, k)
    ensures var read := MaterializeFrom(rows, i, state).value; k in read && RowItem(rows[n]) == Some(read[k])
    decreases n - i
  {
    var item := RowItem(rows[i]).value;
    var more := state[(item.entity, item.predicateName) := item];
    if i == n { OtherRowsLeaveIt(rows, i + 1, more, k); } else { LastRowStands(rows, i + 1, more, n, k); }
  }

  /** What a readable snapshot holds: each key that some row is about, with what the last such row says. */
  lemma ReadsBackExactly(rows: seq<Json>, k: Key)
    ensures MaterializeFrom(rows, 0, map[]).Some? <==> forall j :: 0 <= j < |rows| ==> RowItem(rows[j]).Some?
    ensures MaterializeFrom(rows, 0, map[]).Some? ==>
              var read := MaterializeFrom(rows, 0, map[]).value;
              && (k in read <==> exists n :: IsRowOf(rows, n, k))
              && forall n :: IsLastOf(rows, n, k) ==> k in read && RowItem(rows[n]) == Some(read[k])
  {
    ReadableExactly(rows, 0, map[]);
    if MaterializeFrom(rows, 0, map[]).Some? {
      if n :| IsRowOf(rows, n, k) {
        var last := LastOf(rows, n, k);
        LastRowStands(rows, 0, map[], last, k);
      } else {
        OtherRowsLeaveIt(rows, 0, map[], k);
      }
    }
  }

  lemma LastOf(rows: seq<Json>, n: nat, k: Key) returns (last: nat)
    requires IsRowOf(rows, n, k)
    ensures IsLastOf(rows, last, k) && forall m :: IsLastOf(rows, m, k) ==> m == last
    decreases |rows| - n
  {
    last := n;
    if j :| n < j < |rows| && IsRowOf(rows, j, k) { last := LastOf(rows, j, k); }
  }
}
