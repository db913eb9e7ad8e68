/** Whole runs of a mutation ledger: clients that read and submit, compactions, and reopening
    from the latest snapshot.  The world carries, beside the ledger, the log of all commits. */
module MutationRuns {
  import opened CanonicalJson
  import opened Continuity
  import opened Mutations
  import opened MutationOutcomes
  import opened Text

  datatype Commit = Commit(mutation: Mutation, retention: RetentionClass)

  /** The state after the first n commits, from nothing. */
  function StateAt(log: seq<Commit>, n: nat): State
    requires n <= |log|
  {
    if n == 0 then map[] else Apply(StateAt(log, n - 1), log[n - 1].mutation, log[n - 1].retention)
  }

  lemma {:induction false} StateAtPrefix(log: seq<Commit>, log': seq<Commit>, n: nat)
    requires n <= |log| && n <= |log'| && forall i :: 0 <= i < n ==> log[i] == log'[i]
    ensures StateAt(log, n) == StateAt(log', n)
  {
    if n > 0 { StateAtPrefix(log, log', n - 1); }
  }

  lemma {:induction false} StateKeysMatch(log: seq<Commit>, n: nat)
    requires n <= |log|
    ensures KeysMatch(StateAt(log, n))
  {
    if n > 0 { StateKeysMatch(log, n - 1); }
  }

  // ---- what the fold means, key by key ----

  /** The last of the first n commits about a key, or -1. */
  function LastAbout(log: seq<Commit>, n: nat, k: Key): (i: int)
    requires n <= |log|
    ensures -1 <= i < n
    ensures i >= 0 ==> log[i].mutation.Key() == k
    ensures forall j :: i < j < n ==> log[j].mutation.Key() != k
  {
    if n == 0 then -1 else if log[n - 1].mutation.Key() == k then n - 1 else LastAbout(log, n - 1, k)
  }

  /** The last of the first n commits that carries a value for a key, or -1. */
  function LastValued(log: seq<Commit>, n: nat, k: Key): (i: int)
    requires n <= |log|
    ensures -1 <= i < n
    ensures i >= 0 ==> log[i].mutation.Key() == k && log[i].mutation.value.Some?
    ensures forall j :: i < j < n ==> log[j].mutation.Key() != k || log[j].mutation.value.None?
  {
    if n == 0 then -1
    else if log[n - 1].mutation.Key() == k && log[n - 1].mutation.value.Some? then n - 1
    else LastValued(log, n - 1, k)
  }

  /** A key is in the state iff some commit is about it; its value is the one carried by the last
      commit that carries any, and everything else comes from the last commit about it. */
  lemma {:induction false} StateIsLastWrite(log: seq<Commit>, n: nat, k: Key)
    requires n <= |log|
    ensures k in StateAt(log, n) <==> LastAbout(log, n, k) >= 0
    ensures k in StateAt(log, n) ==>
              var i, v := LastAbout(log, n, k), LastValued(log, n, k);
              var m := log[i].mutation;
              var status := match m.op case Assert => Active case Dispute => Disputed case Withdraw => Withdrawn;
              StateAt(log, n)[k] ==
                Materialized(k.0, k.1, status, if v >= 0 then log[v].mutation.value else None,
                             m.authority, m.id, m.sources, log[i].retention)
  {
    if n > 0 {
      StateIsLastWrite(log, n - 1, k);
      NeverAboutNeverValued(log, n - 1, k);
    }
  }

  lemma NeverAboutNeverValued(log: seq<Commit>, n: nat, k: Key)
    requires n <= |log|
    ensures LastAbout(log, n, k) < 0 ==> LastValued(log, n, k) < 0
  {
    var v := LastValued(log, n, k);
  }

  // ---- snapshots and their ancestors ----

  /** Everything that went into a snapshot's identifier, back to the first one. */
  datatype Lineage =
    | Origin
    | Link(parent: Lineage, stream: string, through: int, stateJson: string, ids: seq<string>)

  function LineageId(codec: Codec, l: Lineage): Option<string> {
    match l
    case Origin => None
    case Link(parent, stream, through, stateJson, ids) =>
      Some(codec.name(stream, through, stateJson, codec.chain(ids), LineageId(codec, parent)))
  }

  /** The identifiers of all mutations that a snapshot and its ancestors cover, in order. */
  function AllIds(l: Lineage): seq<string> {
    if l.Origin? then [] else AllIds(l.parent) + l.ids
  }

  function PayloadText(digest: string -> string, l: Lineage): string
    requires l.Link?
  {
    Print(SnapshotJson(l.stream, l.through, l.stateJson, digest(Print(IdsJson(l.ids))),
                       LineageId(JsonCodec(digest), l.parent)))
  }

  /** The texts that are hashed to name a snapshot and its ancestors. */
  ghost function HashedTexts(digest: string -> string, l: Lineage): set<string> {
    if l.Origin? then {} else HashedTexts(digest, l.parent) + {PayloadText(digest, l), Print(IdsJson(l.ids))}
  }

  ghost predicate CollisionFree(digest: string -> string, texts: set<string>) {
    forall a, b :: a in texts && b in texts ==> !Collides(digest, a, b)
  }

  lemma SnapshotJsonInjective(stream: string, through: int, stateJson: string, sha: string, parent: Option<string>,
                              stream': string, through': int, stateJson': string, sha': string, parent': Option<string>)
    requires SnapshotJson(stream, through, stateJson, sha, parent) ==
               SnapshotJson(stream', through', stateJson', sha', parent')
    ensures stream == stream' && through == through' && stateJson == stateJson' && sha == sha' && parent == parent'
  {
    var f := SnapshotJson(stream, through, stateJson, sha, parent).fields;
    var g := SnapshotJson(stream', through', stateJson', sha', parent').fields;
    assert f["stream_id"] == g["stream_id"] && f["through_revision"] == g["through_revision"];
    assert f["state_json"] == g["state_json"] && f["mutation_chain_sha256"] == g["mutation_chain_sha256"];
    assert f["parent_snapshot_id"] == g["parent_snapshot_id"];
  }

  lemma IdsJsonInjective(ids: seq<string>, ids': seq<string>)
    requires IdsJson(ids) == IdsJson(ids')
    ensures ids == ids'
  {
    assert |ids| == |IdsJson(ids).items| == |ids'|;
    forall i | 0 <= i < |ids| ensures ids[i] == ids'[i] {
      assert Str(ids[i]) == IdsJson(ids).items[i] == IdsJson(ids').items[i] == Str(ids'[i]);
    }
  }

  lemma SamePayload(digest: string -> string, l: Lineage, l': Lineage)
    requires l.Link? && l'.Link? && PayloadText(digest, l) == PayloadText(digest, l')
    ensures l.stream == l'.stream && l.through == l'.through && l.stateJson == l'.stateJson
    ensures digest(Print(IdsJson(l.ids))) == digest(Print(IdsJson(l'.ids)))
    ensures LineageId(JsonCodec(digest), l.parent) == LineageId(JsonCodec(digest), l'.parent)
  {
    var c, c' := digest(Print(IdsJson(l.ids))), digest(Print(IdsJson(l'.ids)));
    var p, p' := LineageId(JsonCodec(digest), l.parent), LineageId(JsonCodec(digest), l'.parent);
    PrintInjective(SnapshotJson(l.stream, l.through, l.stateJson, c, p),
                   SnapshotJson(l'.stream, l'.through, l'.stateJson, c', p'));
    SnapshotJsonInjective(l.stream, l.through, l.stateJson, c, p, l'.stream, l'.through, l'.stateJson, c', p');
  }

  /** Equal snapshot identifiers mean the same committed history through all parents, as long as
      the digest does not collide on the texts hashed on the way. */
  lemma {:induction false} SnapshotIdDeterminesHistory(digest: string -> string, l: Lineage, l': Lineage)
    requires LineageId(JsonCodec(digest), l) == LineageId(JsonCodec(digest), l')
    requires CollisionFree(digest, HashedTexts(digest, l) + HashedTexts(digest, l'))
    ensures l == l'
  {
    if l.Link? {
      var texts := HashedTexts(digest, l) + HashedTexts(digest, l');
      assert PayloadText(digest, l) in texts && PayloadText(digest, l') in texts;
      assert !Collides(digest, PayloadText(digest, l), PayloadText(digest, l'));
      SamePayload(digest, l, l');
      assert Print(IdsJson(l.ids)) in texts && Print(IdsJson(l'.ids)) in texts;
      assert !Collides(digest, Print(IdsJson(l.ids)), Print(IdsJson(l'.ids)));
      PrintInjective(IdsJson(l.ids), IdsJson(l'.ids));
      IdsJsonInjective(l.ids, l'.ids);
      assert HashedTexts(digest, l.parent) + HashedTexts(digest, l'.parent) <= texts;
      SnapshotIdDeterminesHistory(digest, l.parent, l'.parent);
    }
  }

  // ---- runs ----

  /** What a client knew when it last read the ledger. */
  datatype View = View(revision: int, state: State)

  datatype World = World(ledger: Ledger, log: seq<Commit>, covered: nat, lineage: Lineage, views: map<nat, View>)

  datatype Op =
    | Read(client: nat)
    | Submit(client: nat, m: Mutation)   // built on the revision the client last read
    | Offer(m: Mutation)                 // any mutation at all, a retry for instance
    | Compact
    | Reopen                             // from the latest snapshot

  predicate Legal(w: World, op: Op) {
    match op
    case Submit(c, m) => c in w.views && m.Valid(w.ledger.schemas.kindOf) && m.baseRevision == w.views[c].revision
    case Offer(m) => m.Valid(w.ledger.schemas.kindOf)
    case _ => true
  }

  function AfterOffer(w: World, m: Mutation): World {
    if !Commits(w.ledger, m) then w else
      w.(ledger := AfterAppend(w.ledger, m),
         log := w.log + [Commit(m, w.ledger.schemas.table[m.SchemaKey()].retention)])
  }

  function Compacted(codec: Codec, w: World): World {
    var l := w.ledger;
    w.(ledger := AfterCompact(codec, l), covered := |w.log|,
       lineage := Link(w.lineage, l.stream, l.revision, codec.encode(l.state), MutationIds(l.mutations)))
  }

  function Reopened(codec: Codec, w: World): World {
    match Opened(codec, w.ledger.stream, w.ledger.schemas, w.ledger.snapshot)
    case Some(l) => if w.covered <= |w.log| then w.(ledger := l, log := w.log[..w.covered]) else w
    case None => w
  }

  function Step(codec: Codec, w: World, op: Op): World {
    match op
    case Read(c) => w.(views := w.views[c := View(w.ledger.revision, w.ledger.state)])
    case Submit(_, m) => AfterOffer(w, m)
    case Offer(m) => AfterOffer(w, m)
    case Compact => Compacted(codec, w)
    case Reopen => Reopened(codec, w)
  }

  function Start(stream: string, schemas: Schemas): World {
    World(Ledger(stream, schemas, None, map[], 0, [], {}), [], 0, Origin, map[])
  }

  /** A run: the worlds before and after each of its operations. */
  ghost predicate IsRun(codec: Codec, ops: seq<Op>, ws: seq<World>) {
    |ws| == |ops| + 1 && forall i {:trigger StepAt(codec, ops, ws, i)} :: 0 <= i < |ops| ==> StepAt(codec, ops, ws, i)
  }

  ghost predicate StepAt(codec: Codec, ops: seq<Op>, ws: seq<World>, i: nat)
    requires i < |ops| && |ws| == |ops| + 1
  {
    Legal(ws[i], ops[i]) && ws[i + 1] == Step(codec, ws[i], ops[i])
  }

  // ---- the invariant of every run ----

  /** One gap-free chain of revisions. */
  ghost predicate Chain(stream: string, log: seq<Commit>) {
    forall i :: 0 <= i < |log| ==>
      log[i].mutation.revision == i + 1 && log[i].mutation.baseRevision == i && log[i].mutation.stream == stream
  }

  ghost predicate AdmittedAt(schemas: Schemas, log: seq<Commit>, i: int)
    requires 0 <= i < |log|
  {
    var m := log[i].mutation;
    Refusal(schemas, m).None? && log[i].retention == schemas.table[m.SchemaKey()].retention
  }

  /** Every commit was admitted by its schema. */
  ghost predicate Admitted(schemas: Schemas, log: seq<Commit>) {
    forall i {:trigger AdmittedAt(schemas, log, i)} :: 0 <= i < |log| ==> AdmittedAt(schemas, log, i)
  }

  /** What the ledger still holds of the log: the commits after the snapshot. */
  ghost predicate Tail(l: Ledger, log: seq<Commit>, covered: nat) {
    && covered <= |log| && |l.mutations| == |log| - covered
    && (forall i :: 0 <= i < |l.mutations| ==> l.mutations[i] == log[covered + i].mutation)
    && (forall id :: id in l.ids <==> exists i :: 0 <= i < |l.mutations| && l.mutations[i].id == id)
  }

  /** The latest snapshot is the state it covers. */
  ghost predicate Snapshotted(codec: Codec, l: Ledger, log: seq<Commit>, covered: nat) {
    covered <= |log|
    && match l.snapshot
       case None => covered == 0
       case Some(s) => s.stream == l.stream && s.through == covered
                       && codec.decode(s.stateJson) == Some(StateAt(log, covered))
  }

  /** The latest snapshot's identifier stands for its lineage, and that for the covered commits. */
  ghost predicate Named(codec: Codec, w: World) {
    && LineageId(codec, w.lineage) == ParentId(w.ledger)
    && |AllIds(w.lineage)| == w.covered <= |w.log|
    && (forall i :: 0 <= i < w.covered ==> AllIds(w.lineage)[i] == w.log[i].mutation.id)
  }

  ghost predicate Inv(codec: Codec, w: World) {
    && w.ledger.state == StateAt(w.log, |w.log|) && w.ledger.revision == |w.log|
    && Chain(w.ledger.stream, w.log) && Admitted(w.ledger.schemas, w.log)
    && Tail(w.ledger, w.log, w.covered) && Snapshotted(codec, w.ledger, w.log, w.covered) && Named(codec, w)
  }

  lemma TailGrows(l: Ledger, l': Ledger, log: seq<Commit>, c: Commit, covered: nat)
    requires Tail(l, log, covered) && l'.mutations == l.mutations + [c.mutation] && l'.ids == l.ids + {c.mutation.id}
    ensures Tail(l', log + [c], covered)
  {
    var m, log' := c.mutation, log + [c];
    assert forall i :: 0 <= i < |l.mutations| ==>
             l'.mutations[i] == l.mutations[i] && log'[covered + i] == log[covered + i];
    forall id ensures id in l'.ids <==> exists i :: 0 <= i < |l'.mutations| && l'.mutations[i].id == id {
      if id == m.id { assert l'.mutations[|l.mutations|].id == id; }
      if id in l.ids {
        var i :| 0 <= i < |l.mutations| && l.mutations[i].id == id;
        assert l'.mutations[i].id == id;
      }
    }
  }

  lemma AdmittedGrows(schemas: Schemas, log: seq<Commit>, c: Commit)
    requires Admitted(schemas, log) && Refusal(schemas, c.mutation).None?
    requires c.retention == schemas.table[c.mutation.SchemaKey()].retention
    ensures Admitted(schemas, log + [c])
  {
    forall i | 0 <= i < |log + [c]| ensures AdmittedAt(schemas, log + [c], i) {
      if i < |log| { assert AdmittedAt(schemas, log, i); }
    }
  }

  lemma ChainGrows(stream: string, log: seq<Commit>, c: Commit)
    requires Chain(stream, log) && c.mutation.stream == stream
    requires c.mutation.revision == |log| + 1 && c.mutation.baseRevision == |log|
    ensures Chain(stream, log + [c])
  {
  }

  lemma SnapshotGrows(codec: Codec, w: World, c: Commit, l': Ledger)
    requires Snapshotted(codec, w.ledger, w.log, w.covered) && Named(codec, w)
    requires l'.snapshot == w.ledger.snapshot && l'.stream == w.ledger.stream
    ensures Snapshotted(codec, l', w.log + [c], w.covered)
    ensures Named(codec, w.(ledger := l', log := w.log + [c]))
  {
    StateAtPrefix(w.log, w.log + [c], w.covered);
  }

  lemma StateGrows(log: seq<Commit>, c: Commit)
    ensures StateAt(log + [c], |log| + 1) == Apply(StateAt(log, |log|), c.mutation, c.retention)
  {
    StateAtPrefix(log, log + [c], |log|);
  }

  lemma CommitKeepsInv(codec: Codec, w: World, c: Commit, l': Ledger)
    requires Inv(codec, w) && Refusal(w.ledger.schemas, c.mutation).None? && c.mutation.stream == w.ledger.stream
    requires c.retention == w.ledger.schemas.table[c.mutation.SchemaKey()].retention
    requires c.mutation.baseRevision == |w.log| && c.mutation.revision == |w.log| + 1
    requires l'.stream == w.ledger.stream && l'.schemas == w.ledger.schemas && l'.snapshot == w.ledger.snapshot
    requires l'.state == Apply(w.ledger.state, c.mutation, c.retention) && l'.revision == c.mutation.revision
    requires l'.mutations == w.ledger.mutations + [c.mutation] && l'.ids == w.ledger.ids + {c.mutation.id}
    ensures Inv(codec, w.(ledger := l', log := w.log + [c]))
  {
    TailGrows(w.ledger, l', w.log, c, w.covered);
    AdmittedGrows(w.ledger.schemas, w.log, c);
    ChainGrows(w.ledger.stream, w.log, c);
    SnapshotGrows(codec, w, c, l');
    StateGrows(w.log, c);
  }

  lemma OfferKeepsInv(codec: Codec, w: World, m: Mutation)
    requires Inv(codec, w) && m.revision == m.baseRevision + 1
    ensures Inv(codec, AfterOffer(w, m))
  {
    if Commits(w.ledger, m) {
      CommitKeepsInv(codec, w, Commit(m, w.ledger.schemas.table[m.SchemaKey()].retention), AfterAppend(w.ledger, m));
    }
  }

  lemma CompactKeepsInv(codec: Codec, w: World)
    requires RoundTrips(codec) && Inv(codec, w)
    ensures Inv(codec, Compacted(codec, w))
  {
    StateKeysMatch(w.log, |w.log|);
    CompactKeepsNames(codec, w);
    assert Tail(Compacted(codec, w).ledger, w.log, |w.log|);
  }

  lemma CompactKeepsNames(codec: Codec, w: World)
    requires Tail(w.ledger, w.log, w.covered) && Named(codec, w)
    ensures Named(codec, Compacted(codec, w))
  {
    var ids := MutationIds(w.ledger.mutations);
    var all := AllIds(w.lineage) + ids;
    assert AllIds(Compacted(codec, w).lineage) == all;
    forall i | 0 <= i < |w.log| ensures all[i] == w.log[i].mutation.id {
      if i >= w.covered { assert w.ledger.mutations[i - w.covered] == w.log[w.covered + (i - w.covered)].mutation; }
    }
  }

  lemma ReopenKeepsInv(codec: Codec, w: World)
    requires Inv(codec, w)
    ensures Inv(codec, Reopened(codec, w))
    ensures var w' := Reopened(codec, w);
            && w'.log == w.log[..w.covered] && w'.views == w.views && w'.covered == w.covered
            && w'.ledger == Ledger(w.ledger.stream, w.ledger.schemas, w.ledger.snapshot, StateAt(w.log, w.covered),
                                   w.covered, [], {})
  {
    var log' := w.log[..w.covered];
    StateAtPrefix(w.log, log', w.covered);
    forall i | 0 <= i < |log'| ensures AdmittedAt(w.ledger.schemas, log', i) {
      assert AdmittedAt(w.ledger.schemas, w.log, i);
    }
  }

  /** What every step keeps. */
  lemma StepKeepsInv(codec: Codec, w: World, op: Op)
    requires RoundTrips(codec) && Inv(codec, w) && Legal(w, op)
    ensures Inv(codec, Step(codec, w, op))
  {
    match op {
      case Read(_) =>
      case Submit(_, m) => OfferKeepsInv(codec, w, m);
      case Offer(m) => OfferKeepsInv(codec, w, m);
      case Compact => CompactKeepsInv(codec, w);
      case Reopen => ReopenKeepsInv(codec, w);
    }
  }

  lemma StartInv(codec: Codec, stream: string, schemas: Schemas)
    ensures Inv(codec, Start(stream, schemas))
  {
  }

  ghost predicate InvAt(codec: Codec, ws: seq<World>, n: nat) { n < |ws| && Inv(codec, ws[n]) }

  lemma StepOfRunKeepsInv(codec: Codec, ops: seq<Op>, ws: seq<World>, n: nat)
    requires RoundTrips(codec) && IsRun(codec, ops, ws) && n < |ops| && InvAt(codec, ws, n)
    ensures InvAt(codec, ws, n + 1)
  {
    assert StepAt(codec, ops, ws, n);
    StepKeepsInv(codec, ws[n], ops[n]);
  }

  /** In every run the state is the fold of the commits, the revision their number, and the
      commits one gap-free chain, wherever compactions and reopenings fell. */
  lemma {:induction false} RunKeepsInv(codec: Codec, ops: seq<Op>, ws: seq<World>, n: nat)
    requires RoundTrips(codec) && IsRun(codec, ops, ws) && Inv(codec, ws[0]) && n <= |ops|
    ensures InvAt(codec, ws, n)
  {
    if n > 0 {
      RunKeepsInv(codec, ops, ws, n - 1);
      StepOfRunKeepsInv(codec, ops, ws, n - 1);
    }
  }

  /** What that says of the source's own codec: whatever the clients offer and wherever compactions
      and reopenings fall, replaying the log from nothing gives the state, the revision counts the
      commits, each commit was built on the revision just before it, and the latest snapshot
      reads back as the state it covers. */
  lemma EveryRunFolds(digest: string -> string, stream: string, schemas: Schemas, ops: seq<Op>, ws: seq<World>, n: nat)
    requires IsRun(JsonCodec(digest), ops, ws) && ws[0] == Start(stream, schemas) && n <= |ops|
    ensures var w := ws[n];
            && w.ledger.state == StateAt(w.log, |w.log|) && w.ledger.revision == |w.log| >= w.covered
            && (forall i :: 0 <= i < |w.log| ==>
                  w.log[i].mutation.baseRevision == i && w.log[i].mutation.revision == i + 1)
            && (w.ledger.snapshot.Some? ==> w.ledger.snapshot.value.through == w.covered
                                            && Materialize(w.ledger.snapshot.value.stateJson) ==
                                              Some(StateAt(w.log, w.covered)))
  {
    JsonCodecRoundTrips(digest);
    StartInv(JsonCodec(digest), stream, schemas);
    RunKeepsInv(JsonCodec(digest), ops, ws, n);
  }

  /** Two ledgers whose latest snapshots have one identifier have committed the same mutations up
      to there. */
  lemma EqualSnapshotsEqualHistory(digest: string -> string, w: World, v: World)
    requires Named(JsonCodec(digest), w) && Named(JsonCodec(digest), v) && ParentId(w.ledger) == ParentId(v.ledger)
    requires CollisionFree(digest, HashedTexts(digest, w.lineage) + HashedTexts(digest, v.lineage))
    ensures w.covered == v.covered
    ensures forall i :: 0 <= i < w.covered ==> w.log[i].mutation.id == v.log[i].mutation.id
  {
    SnapshotIdDeterminesHistory(digest, w.lineage, v.lineage);
    forall i | 0 <= i < w.covered ensures w.log[i].mutation.id == v.log[i].mutation.id {
      assert AllIds(w.lineage)[i] == w.log[i].mutation.id && AllIds(v.lineage)[i] == v.log[i].mutation.id;
    }
  }

  /** No mutation is applied twice, even after compaction has forgotten its identifier; of two
      rivals built on one base at most one commits. */
  lemma NoneTwiceNoRivals(codec: Codec, w: World, i: nat, j: nat)
    requires Inv(codec, w) && i < |w.log| && j < |w.log|
    requires w.log[i].mutation.baseRevision == w.log[j].mutation.baseRevision
    ensures i == j
  {
    assert w.log[i].mutation.baseRevision == i && w.log[j].mutation.baseRevision == j;
  }

  predicate Fits(schema: Schema, kindOf: string -> Option<Kind>, item: Materialized) {
    Mutations.Rank(item.authority) <= Mutations.Rank(schema.maxAuthority)
    && (item.status.Active? ==> AcceptsText(schema, kindOf, item.value))
  }

  /** In every run, what is active has a value its schema accepts, and nothing has more authority
      than the schema of its last mutation allows. */
  lemma StateFitsSchemas(codec: Codec, w: World, k: Key)
    requires Inv(codec, w) && k in w.ledger.state
    ensures LastAbout(w.log, |w.log|, k) >= 0
    ensures var i := LastAbout(w.log, |w.log|, k);
            var key := w.log[i].mutation.SchemaKey();
            key in w.ledger.schemas.table
            && Fits(w.ledger.schemas.table[key], w.ledger.schemas.kindOf, w.ledger.state[k])
  {
    var n := |w.log|;
    StateIsLastWrite(w.log, n, k);
    var i := LastAbout(w.log, n, k);
    assert AdmittedAt(w.ledger.schemas, w.log, i);
    if w.log[i].mutation.op.Assert? { ValueOfLastAssert(w.log, n, k); }
  }

  lemma ValueOfLastAssert(log: seq<Commit>, n: nat, k: Key)
    requires n <= |log| && LastAbout(log, n, k) >= 0 && log[LastAbout(log, n, k)].mutation.value.Some?
    ensures LastValued(log, n, k) == LastAbout(log, n, k)
  {
  }

  // ---- serialisability ----

  /** Every client's view is the state of the ledger at the revision it read. */
  ghost predicate ViewsSound(w: World) {
    forall c :: c in w.views ==>
      0 <= w.views[c].revision <= |w.log| && w.views[c].state == StateAt(w.log, w.views[c].revision)
  }

  /** Reopening must keep what any client has read: the latest snapshot covers every view. */
  predicate Covering(w: World, op: Op) { op.Reopen? ==> forall c :: c in w.views ==> w.views[c].revision <= w.covered }

  lemma ViewsOutlive(w: World, w': World)
    requires ViewsSound(w) && w.log <= w'.log
    requires forall c :: c in w'.views ==>
               (c in w.views && w'.views[c] == w.views[c]) || w'.views[c] == View(|w'.log|, StateAt(w'.log, |w'.log|))
    ensures ViewsSound(w')
  {
    forall c | c in w'.views
      ensures 0 <= w'.views[c].revision <= |w'.log| && w'.views[c].state == StateAt(w'.log, w'.views[c].revision)
    {
      if c in w.views && w'.views[c] == w.views[c] { StateAtPrefix(w.log, w'.log, w.views[c].revision); }
    }
  }

  /** Reopening keeps the views sound exactly if the snapshot covers them all. */
  lemma ReopenKeepsCoveredViews(codec: Codec, w: World)
    requires Inv(codec, w) && ViewsSound(w)
    ensures ViewsSound(Reopened(codec, w)) <==> forall c :: c in w.views ==> w.views[c].revision <= w.covered
  {
    var w' := Reopened(codec, w);
    ReopenKeepsInv(codec, w);
    forall c | c in w.views && w.views[c].revision <= w.covered
      ensures w'.views[c].state == StateAt(w'.log, w'.views[c].revision)
    {
      StateAtPrefix(w.log, w'.log, w.views[c].revision);
    }
  }

  lemma StepKeepsViews(codec: Codec, w: World, op: Op)
    requires Inv(codec, w) && ViewsSound(w) && Legal(w, op)
    ensures ViewsSound(Step(codec, w, op)) <==> Covering(w, op)
  {
    if op.Reopen? {
      ReopenKeepsCoveredViews(codec, w);
    } else {
      ViewsOutlive(w, Step(codec, w, op));
    }
  }

  ghost predicate CoveringAt(ops: seq<Op>, ws: seq<World>, i: nat)
    requires i < |ops| && |ws| == |ops| + 1
  {
    Covering(ws[i], ops[i])
  }

  /** At every reopening of the run the latest snapshot covers all views. */
  ghost predicate CoveringRun(ops: seq<Op>, ws: seq<World>)
    requires |ws| == |ops| + 1
  {
    forall i {:trigger CoveringAt(ops, ws, i)} :: 0 <= i < |ops| ==> CoveringAt(ops, ws, i)
  }

  ghost predicate ViewsSoundAt(ws: seq<World>, n: nat)
    requires n < |ws|
  {
    ViewsSound(ws[n])
  }

  lemma StepOfRunKeepsViews(codec: Codec, ops: seq<Op>, ws: seq<World>, n: nat)
    requires RoundTrips(codec) && IsRun(codec, ops, ws) && Inv(codec, ws[0]) && n < |ops| && ViewsSoundAt(ws, n)
    ensures ViewsSoundAt(ws, n + 1) <==> CoveringAt(ops, ws, n)
  {
    RunKeepsInv(codec, ops, ws, n);
    assert StepAt(codec, ops, ws, n);
    StepKeepsViews(codec, ws[n], ops[n]);
  }

  lemma {:induction false} RunKeepsViews(codec: Codec, ops: seq<Op>, ws: seq<World>, n: nat)
    requires RoundTrips(codec) && IsRun(codec, ops, ws) && CoveringRun(ops, ws)
    requires Inv(codec, ws[0]) && ViewsSoundAt(ws, 0) && n <= |ops|
    ensures ViewsSoundAt(ws, n)
  {
    if n > 0 {
      RunKeepsViews(codec, ops, ws, n - 1);
      assert CoveringAt(ops, ws, n - 1);
      StepOfRunKeepsViews(codec, ops, ws, n - 1);
    }
  }

  /** Over whole runs: the views are sound at every moment if and only if every reopening covers them. */
  lemma ViewsSoundExactly(codec: Codec, stream: string, schemas: Schemas, ops: seq<Op>, ws: seq<World>)
    requires RoundTrips(codec) && IsRun(codec, ops, ws) && ws[0] == Start(stream, schemas)
    ensures (forall n :: 0 <= n <= |ops| ==> ViewsSoundAt(ws, n)) <==> CoveringRun(ops, ws)
  {
    StartInv(codec, stream, schemas);
    if CoveringRun(ops, ws) {
      forall n | 0 <= n <= |ops| ensures ViewsSoundAt(ws, n) { RunKeepsViews(codec, ops, ws, n); }
    }
    if forall n :: 0 <= n <= |ops| ==> ViewsSoundAt(ws, n) {
      forall i | 0 <= i < |ops| ensures CoveringAt(ops, ws, i) {
        assert ViewsSoundAt(ws, i) && ViewsSoundAt(ws, i + 1);
        StepOfRunKeepsViews(codec, ops, ws, i);
      }
    }
  }

  /** Serialisability: whatever the interleaving, a submitted mutation that commits is applied to
      exactly the state its author read, as long as no reopening loses what somebody has read. */
  lemma CommitsOnWhatWasRead(digest: string -> string, stream: string, schemas: Schemas, ops: seq<Op>, ws: seq<World>,
                             n: nat)
    requires IsRun(JsonCodec(digest), ops, ws) && CoveringRun(ops, ws) && ws[0] == Start(stream, schemas)
    requires n < |ops| && ops[n].Submit?
    ensures Commits(ws[n].ledger, ops[n].m) ==>
              ops[n].client in ws[n].views && ws[n].ledger.state == ws[n].views[ops[n].client].state
  {
    var codec := JsonCodec(digest);
    JsonCodecRoundTrips(digest);
    StartInv(codec, stream, schemas);
    RunKeepsInv(codec, ops, ws, n);
    RunKeepsViews(codec, ops, ws, n);
    assert StepAt(codec, ops, ws, n);
  }

  /** A view that is not covered is a real hazard: revision numbers start over, so once other mutations
      have brought the ledger back to the view's revision, its author can commit on a state it never read. */
  lemma LossyReopenMisleads(codec: Codec, w: World, w': World, c: nat, m: Mutation)
    requires Inv(codec, w) && ViewsSound(w) && c in w.views
    requires Inv(codec, w') && w'.views == w.views && |w'.log| == w.views[c].revision > 0
    requires forall i :: 0 <= i < |w.log| ==> w.log[i].mutation.id != w'.log[|w'.log| - 1].mutation.id
    requires Legal(w', Submit(c, m)) && m.id !in w'.ledger.ids && m.stream == w'.ledger.stream
    requires Refusal(w'.ledger.schemas, m).None?
    ensures Commits(w'.ledger, m) && w'.ledger.state != w'.views[c].state
  {
    var n := |w'.log|;
    var k, last := w'.log[n - 1].mutation.Key(), w'.log[n - 1].mutation;
    assert k in w'.ledger.state && w'.ledger.state[k].mutationId == last.id;
    StateIsLastWrite(w.log, n, k);
    assert k in w.views[c].state ==> w.views[c].state[k].mutationId == w.log[LastAbout(w.log, n, k)].mutation.id;
  }

  // ---- compaction is invisible to the state ----

  predicate Offers(op: Op, m: Mutation) { (op.Submit? || op.Offer?) && op.m == m }

  ghost predicate OfferedBy(ops: seq<Op>, n: nat, m: Mutation) { exists i :: 0 <= i < n <= |ops| && Offers(ops[i], m) }

  /** An identifier stands for one base revision, as identifiers made by `create` do. */
  ghost predicate IdsBind(ops: seq<Op>) {
    forall m, m' :: OfferedBy(ops, |ops|, m) && OfferedBy(ops, |ops|, m') && m.id == m'.id ==>
      m.baseRevision == m'.baseRevision
  }

  /** The same operations with the compactions and reopenings left out: they become steps that do nothing. */
  ghost predicate IsPlainRun(codec: Codec, ops: seq<Op>, vs: seq<World>) {
    |vs| == |ops| + 1 && forall i {:trigger PlainStepAt(codec, ops, vs, i)} :: 0 <= i < |ops| ==>
                           PlainStepAt(codec, ops, vs, i)
  }

  function PlainStep(codec: Codec, v: World, op: Op): World {
    if op.Compact? || op.Reopen? then v else Step(codec, v, op)
  }

  ghost predicate PlainStepAt(codec: Codec, ops: seq<Op>, vs: seq<World>, i: nat)
    requires i < |ops| && |vs| == |ops| + 1
  {
    vs[i + 1] == PlainStep(codec, vs[i], ops[i])
  }

  /** Reopening loses nothing: the latest snapshot covers every commit. */
  predicate Lossless(w: World, op: Op) { op.Reopen? ==> w.covered == |w.log| }

  ghost predicate LosslessAt(ops: seq<Op>, ws: seq<World>, i: nat)
    requires i < |ops| && |ws| == |ops| + 1
  {
    Lossless(ws[i], ops[i])
  }

  ghost predicate LosslessRun(ops: seq<Op>, ws: seq<World>)
    requires |ws| == |ops| + 1
  {
    forall i {:trigger LosslessAt(ops, ws, i)} :: 0 <= i < |ops| ==> LosslessAt(ops, ws, i)
  }

  /** All that a client can see of a world, short of the reports on retries. */
  ghost predicate Alike(w: World, v: World) {
    w.log == v.log && w.ledger.state == v.ledger.state && w.ledger.revision == v.ledger.revision && w.views == v.views
    && w.ledger.schemas == v.ledger.schemas && w.ledger.stream == v.ledger.stream
  }

  lemma IdSeenMeansStale(codec: Codec, w: World, m: Mutation)
    requires Inv(codec, w)
    requires forall i :: 0 <= i < |w.log| && w.log[i].mutation.id == m.id ==>
               w.log[i].mutation.baseRevision == m.baseRevision
    ensures m.id in w.ledger.ids ==> m.baseRevision != w.ledger.revision
  {
    if m.id in w.ledger.ids {
      var i :| 0 <= i < |w.ledger.mutations| && w.ledger.mutations[i].id == m.id;
      assert w.log[w.covered + i].mutation.id == m.id;
    }
  }

  lemma SameStep(codec: Codec, w: World, v: World, op: Op)
    requires Inv(codec, w) && Inv(codec, v) && Alike(w, v) && !op.Compact? && !op.Reopen?
    requires op.Submit? || op.Offer? ==>
               forall i :: 0 <= i < |w.log| && w.log[i].mutation.id == op.m.id ==>
                 w.log[i].mutation.baseRevision == op.m.baseRevision
    ensures Alike(Step(codec, w, op), Step(codec, v, op))
  {
    if op.Submit? || op.Offer? {
      IdSeenMeansStale(codec, w, op.m);
      IdSeenMeansStale(codec, v, op.m);
    }
  }

  ghost predicate LogOffered(w: World, ops: seq<Op>, n: nat) {
    forall i :: 0 <= i < |w.log| ==> OfferedBy(ops, n, w.log[i].mutation)
  }

  lemma LogOfferedStep(codec: Codec, w: World, ops: seq<Op>, n: nat)
    requires n < |ops| && LogOffered(w, ops, n) && (ops[n].Reopen? ==> Step(codec, w, ops[n]).log == w.log)
    ensures LogOffered(Step(codec, w, ops[n]), ops, n + 1)
  {
    var w' := Step(codec, w, ops[n]);
    forall i | 0 <= i < |w'.log| ensures OfferedBy(ops, n + 1, w'.log[i].mutation) {
      if i < |w.log| {
        assert OfferedBy(ops, n, w.log[i].mutation);
      } else {
        assert Offers(ops[n], w'.log[i].mutation);
      }
    }
  }

  lemma StepPaired(codec: Codec, ops: seq<Op>, ws: seq<World>, vs: seq<World>, i: nat)
    requires RoundTrips(codec) && IsRun(codec, ops, ws) && IsPlainRun(codec, ops, vs) && i < |ops|
    requires IdsBind(ops) && LosslessAt(ops, ws, i) && Inv(codec, ws[i]) && Paired(codec, ws[i], vs[i], ops, i)
    ensures Paired(codec, ws[i + 1], vs[i + 1], ops, i + 1)
  {
    assert StepAt(codec, ops, ws, i) && PlainStepAt(codec, ops, vs, i);
    TransparentStep(codec, ws[i], vs[i], ws[i + 1], vs[i + 1], ops, i);
  }

  ghost predicate PairedAt(codec: Codec, ops: seq<Op>, ws: seq<World>, vs: seq<World>, i: nat) {
    i <= |ops| && i < |ws| && i < |vs| && Paired(codec, ws[i], vs[i], ops, i)
  }

  lemma PairedNext(codec: Codec, ops: seq<Op>, ws: seq<World>, vs: seq<World>, i: nat)
    requires RoundTrips(codec) && IsRun(codec, ops, ws) && IsPlainRun(codec, ops, vs) && i < |ops|
    requires IdsBind(ops) && LosslessAt(ops, ws, i) && Inv(codec, ws[0]) && PairedAt(codec, ops, ws, vs, i)
    ensures PairedAt(codec, ops, ws, vs, i + 1)
  {
    RunKeepsInv(codec, ops, ws, i);
    StepPaired(codec, ops, ws, vs, i);
  }

  lemma {:induction false} RunsPaired(codec: Codec, ops: seq<Op>, ws: seq<World>, vs: seq<World>, n: nat)
    requires RoundTrips(codec) && IsRun(codec, ops, ws) && IsPlainRun(codec, ops, vs) && n <= |ops|
    requires IdsBind(ops) && LosslessRun(ops, ws)
    requires Inv(codec, ws[0]) && PairedAt(codec, ops, ws, vs, 0)
    ensures PairedAt(codec, ops, ws, vs, n)
  {
    if n > 0 {
      RunsPaired(codec, ops, ws, vs, n - 1);
      assert LosslessAt(ops, ws, n - 1);
      PairedNext(codec, ops, ws, vs, n - 1);
    }
  }

  ghost predicate AlikeAt(ws: seq<World>, vs: seq<World>, n: nat) { n < |ws| && n < |vs| && Alike(ws[n], vs[n]) }

  lemma AlikeMeansLossless(codec: Codec, ops: seq<Op>, ws: seq<World>, vs: seq<World>, i: nat)
    requires RoundTrips(codec) && IsRun(codec, ops, ws) && IsPlainRun(codec, ops, vs) && i < |ops| && Inv(codec, ws[0])
    requires AlikeAt(ws, vs, i) && AlikeAt(ws, vs, i + 1)
    ensures LosslessAt(ops, ws, i)
  {
    RunKeepsInv(codec, ops, ws, i);
    assert StepAt(codec, ops, ws, i) && PlainStepAt(codec, ops, vs, i);
    if ops[i].Reopen? {
      ReopenKeepsInv(codec, ws[i]);
      assert |ws[i + 1].log| == ws[i].covered;
    }
  }

  /** Wherever compactions and reopenings fall, the same mutations commit and every client reads the same as
      without any, if and only if no reopening loses a commit. */
  lemma CompactionTransparent(codec: Codec, stream: string, schemas: Schemas, ops: seq<Op>, ws: seq<World>,
                              vs: seq<World>)
    requires RoundTrips(codec) && IsRun(codec, ops, ws) && IsPlainRun(codec, ops, vs) && IdsBind(ops)
    requires ws[0] == vs[0] == Start(stream, schemas)
    ensures (forall n :: 0 <= n <= |ops| ==> AlikeAt(ws, vs, n)) <==> LosslessRun(ops, ws)
  {
    StartInv(codec, stream, schemas);
    if LosslessRun(ops, ws) {
      forall n | 0 <= n <= |ops| ensures AlikeAt(ws, vs, n) { RunsPaired(codec, ops, ws, vs, n); }
    }
    if forall n :: 0 <= n <= |ops| ==> AlikeAt(ws, vs, n) {
      forall i | 0 <= i < |ops| ensures LosslessAt(ops, ws, i) {
        assert AlikeAt(ws, vs, i) && AlikeAt(ws, vs, i + 1);
        AlikeMeansLossless(codec, ops, ws, vs, i);
      }
    }
  }

  ghost predicate Paired(codec: Codec, w: World, v: World, ops: seq<Op>, n: nat) {
    Alike(w, v) && Inv(codec, v) && LogOffered(w, ops, n)
  }

  lemma TransparentStep(codec: Codec, w: World, v: World, w': World, v': World, ops: seq<Op>, n: nat)
    requires RoundTrips(codec) && Inv(codec, w) && Paired(codec, w, v, ops, n)
    requires n < |ops| && IdsBind(ops) && Legal(w, ops[n]) && Lossless(w, ops[n])
    requires w' == Step(codec, w, ops[n]) && v' == PlainStep(codec, v, ops[n])
    ensures Paired(codec, w', v', ops, n + 1)
  {
    if ops[n].Reopen? {
      ReopenKeepsInv(codec, w);
      assert w.log[..|w.log|] == w.log;
    }
    LogOfferedStep(codec, w, ops, n);
    if !ops[n].Compact? && !ops[n].Reopen? {
      BoundBase(w, ops, n);
      SameStep(codec, w, v, ops[n]);
      StepKeepsInv(codec, v, ops[n]);
    }
  }

  lemma BoundBase(w: World, ops: seq<Op>, n: nat)
    requires n < |ops| && LogOffered(w, ops, n) && IdsBind(ops)
    ensures ops[n].Submit? || ops[n].Offer? ==>
              forall i :: 0 <= i < |w.log| && w.log[i].mutation.id == ops[n].m.id ==>
                            w.log[i].mutation.baseRevision == ops[n].m.baseRevision
  {
    if ops[n].Submit? || ops[n].Offer? {
      assert Offers(ops[n], ops[n].m);
      assert OfferedBy(ops, |ops|, ops[n].m);
      forall i | 0 <= i < |w.log| ensures OfferedBy(ops, |ops|, w.log[i].mutation) {
        assert OfferedBy(ops, n, w.log[i].mutation);
      }
    }
  }

  /** Without bound identifiers compaction does show: it changes the fate of exactly the mutations
      that carry a remembered identifier and would otherwise commit. */
  lemma CompactionShows(codec: Codec, l: Ledger, m: Mutation)
    ensures (Commits(AfterCompact(codec, l), m) <==> Commits(l, m)) <==>
            !(m.id in l.ids && m.stream == l.stream && m.baseRevision == l.revision && Refusal(l.schemas, m).None?)
  {
  }

  /** A retry of a committed mutation never commits again: as long as its identifier is remembered the report
      says that it is committed, and otherwise that it conflicts. It is remembered until a compaction covers it. */
  lemma RetryOfCommitted(codec: Codec, ops: seq<Op>, ws: seq<World>, n: nat, i: nat)
    requires RoundTrips(codec) && IsRun(codec, ops, ws) && Inv(codec, ws[0]) && n <= |ops| && i < |ws[n].log|
    ensures var m, l := ws[n].log[i].mutation, ws[n].ledger;
            && Mutations.Decide(l, m).Reported? && !Commits(l, m)
            && Mutations.Decide(l, m).report.outcome == (if m.id in l.ids then AlreadyCommitted else Conflict)
            && (ws[n].covered <= i ==> m.id in l.ids)
  {
    RunKeepsInv(codec, ops, ws, n);
    var w := ws[n];
    if w.covered <= i { assert w.ledger.mutations[i - w.covered] == w.log[i].mutation; }
  }

  /** Compaction is what changes the report. */
  lemma RetryAfterCompaction(codec: Codec, w: World, i: nat)
    requires Inv(codec, w) && w.covered <= i < |w.log|
    ensures var m, l, l' := w.log[i].mutation, w.ledger, Compacted(codec, w).ledger;
            && Mutations.Decide(l, m).Reported? && Mutations.Decide(l, m).report.outcome == AlreadyCommitted
            && Mutations.Decide(l', m).Reported? && Mutations.Decide(l', m).report.outcome == Conflict
            && !Commits(l, m) && !Commits(l', m)
  {
    var m := w.log[i].mutation;
    assert w.ledger.mutations[i - w.covered] == m;
    CompactionShows(codec, w.ledger, m);
  }

  /** What an offer or a submission adds to the log of any run: the mutation, if it is new, in turn and acceptable,
      and nothing otherwise. */
  lemma CommitsExactly(codec: Codec, ops: seq<Op>, ws: seq<World>, n: nat, m: Mutation)
    requires IsRun(codec, ops, ws) && n < |ops| && (ops[n] == Offer(m) || (ops[n].Submit? && ops[n].m == m))
    ensures var l, schema := ws[n].ledger, (m.schemaId, m.schemaVersion, m.predicateName);
            if InTurn(l, m) && Acceptable(l.schemas, m)
            then ws[n + 1].log == ws[n].log + [Commit(m, l.schemas.table[schema].retention)]
                 && Enters(l, m, ws[n + 1].ledger)
            else ws[n + 1] == ws[n]
  {
    assert StepAt(codec, ops, ws, n);
    AnswersExactly(ws[n].ledger, m);
    EntersExactly(ws[n].ledger, m);
  }

  // ---- two short runs ----

  /** The same change under another identifier, on another base. */
  function Rebased(t: Mutation, id: string, base: nat): Mutation {
    t.(id := id, revision := base + 1, baseRevision := base)
  }

  ghost predicate Admissible(stream: string, schemas: Schemas, t: Mutation) {
    t.Valid(schemas.kindOf) && t.stream == stream && Refusal(schemas, t).None?
  }

  ghost predicate Moves(codec: Codec, w: World, op: Op, w': World) { Legal(w, op) && w' == Step(codec, w, op) }

  /** A change that the schemas admit commits on whatever revision the ledger has. */
  lemma ChangeCommits(codec: Codec, w: World, t: Mutation, id: string, revision: nat)
    requires Admissible(w.ledger.stream, w.ledger.schemas, t) && w.ledger.revision == revision
    requires NotBlank(id) && id !in w.ledger.ids
    ensures var m := Rebased(t, id, revision); var w' := Step(codec, w, Offer(m));
            && m.Valid(w.ledger.schemas.kindOf) && Commits(w.ledger, m) && Moves(codec, w, Offer(m), w')
            && w'.ledger.stream == w.ledger.stream && w'.ledger.schemas == w.ledger.schemas
            && w'.ledger.snapshot == w.ledger.snapshot && w'.ledger.revision == revision + 1
            && w'.ledger.ids == w.ledger.ids + {id} && |w'.log| == |w.log| + 1
            && w'.covered == w.covered && w'.views == w.views
            && t.Key() in w'.ledger.state && w'.ledger.state[t.Key()].mutationId == id
  {
    var m := Rebased(t, id, revision);
    assert m.SchemaKey() == t.SchemaKey() && m.Key() == t.Key();
  }

  lemma FiveSteps(codec: Codec, ops: seq<Op>, ws: seq<World>)
    requires |ops| == 5 && |ws| == 6
    requires Moves(codec, ws[0], ops[0], ws[1]) && Moves(codec, ws[1], ops[1], ws[2])
    requires Moves(codec, ws[2], ops[2], ws[3])
    requires Moves(codec, ws[3], ops[3], ws[4]) && Moves(codec, ws[4], ops[4], ws[5])
    ensures IsRun(codec, ops, ws)
  {
    forall i | 0 <= i < 5 ensures StepAt(codec, ops, ws, i) { assert Moves(codec, ws[i], ops[i], ws[i + 1]); }
  }

  function LossySteps(t: Mutation, a: string, b: string, c: string): seq<Op> {
    [Offer(Rebased(t, a, 0)), Read(0), Reopen, Offer(Rebased(t, b, 0)), Submit(0, Rebased(t, c, 1))]
  }

  /** The hazard in five steps: somebody reads the first change, the ledger is reopened without it, another
      change takes its revision, and what was built on the first one commits on the other. */
  lemma LossyReopenRun(codec: Codec, stream: string, schemas: Schemas, t: Mutation, a: string, b: string, c: string)
    returns (ws: seq<World>)
    requires Admissible(stream, schemas, t) && NotBlank(a) && NotBlank(b) && NotBlank(c) && a != b && c != b
    ensures IsRun(codec, LossySteps(t, a, b, c), ws) && ws[0] == Start(stream, schemas)
    ensures Commits(ws[4].ledger, Rebased(t, c, 1)) && 0 in ws[4].views && ws[4].ledger.state != ws[4].views[0].state
  {
    var w0 := Start(stream, schemas);
    ChangeCommits(codec, w0, t, a, 0);
    var w1 := Step(codec, w0, Offer(Rebased(t, a, 0)));
    var w2 := Step(codec, w1, Read(0));
    var w3 := Step(codec, w2, Reopen);
    ChangeCommits(codec, w3, t, b, 0);
    var w4 := Step(codec, w3, Offer(Rebased(t, b, 0)));
    ChangeCommits(codec, w4, t, c, 1);
    ws := [w0, w1, w2, w3, w4, Step(codec, w4, Submit(0, Rebased(t, c, 1)))];
    FiveSteps(codec, LossySteps(t, a, b, c), ws);
  }

  lemma FourSteps(codec: Codec, ops: seq<Op>, ws: seq<World>)
    requires |ops| == 4 && |ws| == 5
    requires Moves(codec, ws[0], ops[0], ws[1]) && Moves(codec, ws[1], ops[1], ws[2])
    requires Moves(codec, ws[2], ops[2], ws[3]) && Moves(codec, ws[3], ops[3], ws[4])
    ensures IsRun(codec, ops, ws)
  {
    forall i | 0 <= i < 4 ensures StepAt(codec, ops, ws, i) { assert Moves(codec, ws[i], ops[i], ws[i + 1]); }
  }

  function Early(t: Mutation, a: string, b: string): seq<Op> {
    [Offer(Rebased(t, a, 0)), Compact, Offer(Rebased(t, b, 1)), Reopen]
  }

  function Late(t: Mutation, a: string, b: string): seq<Op> {
    [Offer(Rebased(t, a, 0)), Offer(Rebased(t, b, 1)), Compact, Reopen]
  }

  lemma ReopenedLog(codec: Codec, stream: string, schemas: Schemas, ops: seq<Op>, ws: seq<World>)
    requires RoundTrips(codec) && IsRun(codec, ops, ws) && |ops| == 4 && ops[3].Reopen?
    requires ws[0] == Start(stream, schemas)
    ensures |ws[4].log| == ws[3].covered
  {
    StartInv(codec, stream, schemas);
    RunKeepsInv(codec, ops, ws, 3);
    assert StepAt(codec, ops, ws, 3);
    ReopenKeepsInv(codec, ws[3]);
  }

  /** With a reopening that loses a commit it matters where the compaction falls: before the second change
      only the first survives, after it both do. */
  lemma PlacementShows(codec: Codec, stream: string, schemas: Schemas, t: Mutation, a: string, b: string)
    returns (ws: seq<World>, vs: seq<World>)
    requires RoundTrips(codec) && Admissible(stream, schemas, t) && NotBlank(a) && NotBlank(b) && a != b
    ensures IsRun(codec, Early(t, a, b), ws) && IsRun(codec, Late(t, a, b), vs)
    ensures ws[0] == vs[0] == Start(stream, schemas) && |ws[4].log| == 1 && |vs[4].log| == 2
  {
    var w0 := Start(stream, schemas);
    ChangeCommits(codec, w0, t, a, 0);
    var w1 := Step(codec, w0, Offer(Rebased(t, a, 0)));
    ChangeCommits(codec, w1, t, b, 1);
    var w2, v2 := Step(codec, w1, Compact), Step(codec, w1, Offer(Rebased(t, b, 1)));
    ChangeCommits(codec, w2, t, b, 1);
    var w3, v3 := Step(codec, w2, Offer(Rebased(t, b, 1))), Step(codec, v2, Compact);
    ws, vs := [w0, w1, w2, w3, Step(codec, w3, Reopen)], [w0, w1, v2, v3, Step(codec, v3, Reopen)];
    FourSteps(codec, Early(t, a, b), ws);
    FourSteps(codec, Late(t, a, b), vs);
    ReopenedLog(codec, stream, schemas, Early(t, a, b), ws);
    ReopenedLog(codec, stream, schemas, Late(t, a, b), vs);
  }

  /** There are such ledgers and changes: one schema, and withdrawing what it is about. */
  lemma SomeChangeIsAdmissible(kindOf: string -> Option<Kind>)
    ensures var schemas := Schemas(map[("s", 1, "p") := Schema("s", 1, "p", Any, Act, Durable)], kindOf);
            Admissible("m", schemas, Mutation("i", "m", 1, 0, Withdraw, "e", "p", None, "s", 1,
                                              [("v", seq(64, _ => '0'))], Unauthorised, ""))
  {
    forall text | text in {"i", "m", "e", "p", "s", "v"} ensures NotBlank(text) { assert !IsSpace(text[0]); }
    assert NotBlank("i") && NotBlank("m") && NotBlank("e") && NotBlank("p") && NotBlank("s") && NotBlank("v");
  }
}
