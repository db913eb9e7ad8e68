/** Runs of conversation memory: what its own operations can and cannot make the check report. */
module ConversationRuns {
  import opened CanonicalJson
  import opened Ordering
  import opened Text
  import opened Traces
  import opened ConversationMemory

  /** The operations as they change what is stored.  A decision is taken on a candidate that was
      resolved before, possibly while another process was deciding the same one.  The card is the
      one the store answers with. */
  datatype Step =
    | Record(conversation: string, role: string, content: string, createdAt: string)
    | Stage(conversation: string, index: nat, value: string)
    | Remember(conversation: string, index: nat, card: nat)
    | Decide(id: string, approved: bool, card: nat)
    | Forget(card: nat, conversation: string, index: nat)
    | Correct(card: nat, conversation: string, index: nat)

  function LogOf(w: World, c: string): seq<Event> { if c in w.logs then w.logs[c] else [] }

  /** One more than the sequence number of the last event. */
  function NextSequence(log: seq<Event>): nat { if log == [] then 0 else log[|log| - 1].sequence + 1 }

  /** The store answers with a card that holds the source: one it has or a new one. */
  predicate Added(before: seq<Card>, after: seq<Card>, s: Source, card: nat) {
    card < |after| && s in after[card].sources
    && (after == before || (after == before + [Card(true, {s})] && card == |before|))
  }

  function Evidence(kind: Kind, e: Event): Source {
    Source(kind, e.ref, e.sha, if e.role == "user" then "user" else "agent")
  }

  function FieldsOf(e: Event, value: string): Fields { Fields(value, e.ref, e.sha, e.id, e.createdAt, Some("user")) }

  /** A new candidate is recorded once. */
  function Staged(names: Names, rows: seq<Row>, fields: Fields): seq<Row> {
    var id := names.candidateId(fields);
    if CandidateOf(rows, id).Some? then rows else rows + [Candidate(id, fields)]
  }

  ghost predicate Takes(names: Names, w: World, l: Step, w': World) {
    match l
    case Record(c, role, content, createdAt) =>
      role in names.roles &&
      var e := MakeEvent(names, c, NextSequence(LogOf(w, c)), role, content, createdAt);
      w' == w.(logs := w.logs[c := LogOf(w, c) + [e]])
    case Stage(c, i, value) =>
      i < |LogOf(w, c)| && w' == w.(rows := Staged(names, w.rows, FieldsOf(LogOf(w, c)[i], value)))
    case Remember(c, i, card) =>
      i < |LogOf(w, c)| && w' == w.(cards := w'.cards) &&
      var e := LogOf(w, c)[i]; Added(w.cards, w'.cards, Source(ConversationEvent, e.ref, e.sha, "user"), card)
    case Decide(id, approved, card) =>
      var c := CandidateOf(w.rows, id);
      c.Some? &&
      if approved then Added(w.cards, w'.cards, Source(ConversationEvent, c.value.ref, c.value.sha, "user"), card)
                       && w' == w.(cards := w'.cards, rows := w.rows + [Decision(id, true, Some(card))])
      else w' == w.(rows := w.rows + [Decision(id, false, None)])
    case Forget(card, c, i) =>
      card < |w.cards| && i < |LogOf(w, c)| &&
      w' == w.(cards := w.cards[card := Card(false, w.cards[card].sources + {Evidence(ForgetEvent, LogOf(w, c)[i])})])
    case Correct(card, c, i) =>
      card < |w.cards| && i < |LogOf(w, c)| &&
      var corrected := Card(true, {Evidence(ConversationEvent, LogOf(w, c)[i])});
      w' == w.(cards := w.cards[card := w.cards[card].(active := false)] + [corrected])
  }

  /** An operation that is refused changes nothing. */
  ghost predicate Step1(names: Names, w: World, l: Step, w': World) { w' == w || Takes(names, w, l, w') }

  ghost function Steps(names: Names): (World, Step, World) -> bool { (w, l, w') => Step1(names, w, l, w') }

  const EMPTY := World(map[], [], [])

  // ---- what every step keeps ----

  ghost predicate EventsGood(names: Names, logs: map<string, seq<Event>>) {
    forall c :: c in logs ==> EventsBound(names, c, logs[c]) && forall i :: 0 <= i < |logs[c]| ==>
      logs[c][i].ref == Ref(names, c, i)
  }

  ghost predicate RowsGood(names: Names, w: World) {
    && CandidatesBound(names, w) && DecisionsBound(w)
    && forall i, j :: 0 <= i < j < |w.rows| && w.rows[i].Candidate? && w.rows[j].Candidate? ==>
         w.rows[i].id != w.rows[j].id
  }

  ghost predicate Inv(names: Names, w: World) { EventsGood(names, w.logs) && RowsGood(names, w) && SourcesBound(w) }

  ghost function Invs(names: Names): World -> bool { w => Inv(names, w) }

  /** Distinct events have distinct references, so a reference has one digest. */
  lemma GoodIsUnambiguous(names: Names, logs: map<string, seq<Event>>)
    requires EventsGood(names, logs)
    ensures Unambiguous(logs)
  {
    forall e, f | InLog(logs, e) && InLog(logs, f) && e.ref == f.ref ensures e.sha == f.sha {
      var c :| c in logs && e in logs[c];
      var d :| d in logs && f in logs[d];
      var i :| 0 <= i < |logs[c]| && logs[c][i] == e;
      var j :| 0 <= j < |logs[d]| && logs[d][j] == f;
      RefInjective(names, c, i, d, j);
    }
  }

  /** Of all that the check asks for, only distinct decisions can fail. */
  lemma SoundIffDistinct(names: Names, w: World)
    requires Inv(names, w)
    ensures Sound(names, w) <==> DecisionsDistinct(w.rows)
  {
    GoodIsUnambiguous(names, w.logs);
  }

  /** Evidence once recorded stays. */
  lemma EvidenceStays(logs: map<string, seq<Event>>, c: string, log: seq<Event>, ref: string, sha: string)
    requires Evidenced(logs, ref, sha) && (c in logs ==> logs[c] <= log)
    ensures Evidenced(logs[c := log], ref, sha)
  {
    var e :| InLog(logs, e) && e.ref == ref && e.sha == sha;
    var d :| d in logs && e in logs[d];
    var more := logs[c := log];
    if d == c {
      var k :| 0 <= k < |logs[c]| && logs[c][k] == e;
      assert log[k] == e;
    }
    assert d in more && e in more[d];
    assert InLog(more, e);
  }

  lemma EventIsEvidence(logs: map<string, seq<Event>>, c: string, i: nat)
    requires c in logs && i < |logs[c]|
    ensures Evidenced(logs, logs[c][i].ref, logs[c][i].sha)
  {
    assert InLog(logs, logs[c][i]);
  }

  lemma RecordKeeps(names: Names, w: World, c: string, e: Event, w': World)
    requires Inv(names, w) && w' == w.(logs := w.logs[c := LogOf(w, c) + [e]]) && e.role in names.roles
    requires e == MakeEvent(names, c, NextSequence(LogOf(w, c)), e.role, e.content, e.createdAt)
    ensures Inv(names, w')
  {
    var log := LogOf(w, c);
    assert NextSequence(log) == |log|;
    forall ref, sha | Evidenced(w.logs, ref, sha) ensures Evidenced(w'.logs, ref, sha) {
      EvidenceStays(w.logs, c, log + [e], ref, sha);
    }
    assert EventsBound(names, c, log + [e]);
    assert DecisionsBound(w') by {
      forall i | 0 <= i < |w'.rows| && w'.rows[i].Decision? ensures DecisionBound(w', w'.rows[i]) {
        assert DecisionBound(w, w.rows[i]);
      }
    }
  }

  lemma CandidateStays(rows: seq<Row>, row: Row, id: string)
    requires CandidateOf(rows, id).Some? && (row.Candidate? ==> row.id != id)
    ensures CandidateOf(rows + [row], id) == CandidateOf(rows, id)
  {
    CandidateOfMore(rows, row, id);
  }

  lemma StageKeeps(names: Names, w: World, c: string, i: nat, value: string, w': World)
    requires Inv(names, w) && i < |LogOf(w, c)|
    requires w' == w.(rows := Staged(names, w.rows, FieldsOf(LogOf(w, c)[i], value)))
    ensures Inv(names, w')
  {
    var fields := FieldsOf(LogOf(w, c)[i], value);
    var row := Candidate(names.candidateId(fields), fields);
    EventIsEvidence(w.logs, c, i);
    if w'.rows != w.rows {
      forall k | 0 <= k < |w'.rows| && w'.rows[k].Decision? ensures DecisionBound(w', w'.rows[k]) {
        assert w'.rows[k] == w.rows[k] && DecisionBound(w, w.rows[k]);
        CandidateStays(w.rows, row, w.rows[k].id);
      }
    }
  }

  /** Cards keep their sources, and new sources are evidenced. */
  ghost predicate CardsGrow(w: World, cards: seq<Card>) {
    && |w.cards| <= |cards|
    && (forall k :: 0 <= k < |w.cards| ==> w.cards[k].sources <= cards[k].sources)
    && (forall k, s :: 0 <= k < |cards| && s in cards[k].sources && !s.kind.OtherSource? ==>
          Evidenced(w.logs, s.ref, s.sha))
  }

  lemma DecisionStays(w: World, cards: seq<Card>, rows: seq<Row>, row: Row)
    requires row.Decision? && DecisionBound(w, row) && CardsGrow(w, cards)
    requires CandidateOf(rows, row.id) == CandidateOf(w.rows, row.id)
    ensures DecisionBound(World(w.logs, rows, cards), row)
  {
  }

  lemma CardsKeep(names: Names, w: World, cards: seq<Card>)
    requires Inv(names, w) && CardsGrow(w, cards)
    ensures Inv(names, w.(cards := cards))
  {
    var w' := w.(cards := cards);
    forall i | 0 <= i < |w'.rows| && w'.rows[i].Decision? ensures DecisionBound(w', w'.rows[i]) {
      assert DecisionBound(w, w.rows[i]);
      DecisionStays(w, cards, w.rows, w.rows[i]);
    }
  }

  lemma AddedGrows(w: World, cards: seq<Card>, s: Source, card: nat)
    requires SourcesBound(w) && Added(w.cards, cards, s, card) && Evidenced(w.logs, s.ref, s.sha)
    ensures CardsGrow(w, cards) && Holds(cards[card], s.ref, s.sha)
  {
  }

  lemma DecisionAppended(w: World, cards: seq<Card>, rows: seq<Row>, row: Row)
    requires DecisionsBound(w) && CardsGrow(w, cards) && row.Decision? && rows == w.rows + [row]
    requires DecisionBound(World(w.logs, w.rows, cards), row)
    ensures DecisionsBound(World(w.logs, rows, cards))
  {
    var w' := World(w.logs, rows, cards);
    CandidateStays(w.rows, row, row.id);
    forall i | 0 <= i < |rows| && rows[i].Decision? ensures DecisionBound(w', rows[i]) {
      if i < |w.rows| {
        assert DecisionBound(w, w.rows[i]);
        CandidateStays(w.rows, row, rows[i].id);
        DecisionStays(w, cards, rows, rows[i]);
      }
    }
  }

  lemma DecideKeeps(names: Names, w: World, id: string, approved: bool, card: nat, w': World)
    requires Inv(names, w) && Takes(names, w, Decide(id, approved, card), w')
    ensures Inv(names, w')
  {
    var c := CandidateOf(w.rows, id).value;
    assert Evidenced(w.logs, c.ref, c.sha) by {
      var i :| 0 <= i < |w.rows| && w.rows[i] == Candidate(id, c);
    }
    if approved { AddedGrows(w, w'.cards, Source(ConversationEvent, c.ref, c.sha, "user"), card); }
    DecisionAppended(w, w'.cards, w'.rows, w'.rows[|w.rows|]);
    RowsStayGood(names, w, w', w'.rows[|w.rows|]);
  }

  lemma RowsStayGood(names: Names, w: World, w': World, row: Row)
    requires RowsGood(names, w) && row.Decision? && w'.rows == w.rows + [row] && w'.logs == w.logs && DecisionsBound(w')
    ensures RowsGood(names, w')
  {
  }

  lemma RememberKeeps(names: Names, w: World, c: string, i: nat, card: nat, w': World)
    requires Inv(names, w) && Takes(names, w, Remember(c, i, card), w')
    ensures Inv(names, w')
  {
    var e := w.logs[c][i];
    EventIsEvidence(w.logs, c, i);
    AddedGrows(w, w'.cards, Source(ConversationEvent, e.ref, e.sha, "user"), card);
    CardsKeep(names, w, w'.cards);
  }

  lemma RetireKeeps(names: Names, w: World, l: Step, w': World)
    requires Inv(names, w) && Takes(names, w, l, w') && (l.Forget? || l.Correct?)
    ensures Inv(names, w')
  {
    EventIsEvidence(w.logs, l.conversation, l.index);
    CardsKeep(names, w, w'.cards);
  }

  lemma StepKeepsInv(names: Names, w: World, l: Step, w': World)
    requires Inv(names, w) && Step1(names, w, l, w')
    ensures Inv(names, w')
  {
    if w' != w {
      match l
      case Record(c, role, content, createdAt) => RecordKeeps(names, w, c, w'.logs[c][|LogOf(w, c)|], w');
      case Stage(c, i, value) => StageKeeps(names, w, c, i, value, w');
      case Remember(c, i, card) => RememberKeeps(names, w, c, i, card, w');
      case Decide(id, approved, card) => DecideKeeps(names, w, id, approved, card, w');
      case Forget(_, _, _) => RetireKeeps(names, w, l, w');
      case Correct(_, _, _) => RetireKeeps(names, w, l, w');
    }
  }

  lemma AlwaysInv(names: Names, steps: seq<Step>, ws: seq<World>, n: nat)
    requires IsTrace(Steps(names), steps, ws) && ws[0] == EMPTY && n <= |steps|
    ensures Inv(names, ws[n])
  {
    forall w, l, w' | Inv(names, w) && Steps(names)(w, l, w') ensures Inv(names, w') { StepKeepsInv(names, w, l, w'); }
    Invariant(Steps(names), Invs(names), steps, ws, n);
  }

  // ---- when the check finds nothing ----

  /** The step takes a decision that had been taken before. */
  ghost predicate DecidesAgain(w: World, l: Step, w': World) {
    l.Decide? && w' != w && Decided(w.rows, l.id)
  }

  lemma StepDecides(names: Names, w: World, l: Step, w': World)
    requires Step1(names, w, l, w')
    ensures DecisionsDistinct(w'.rows) <==> DecisionsDistinct(w.rows) && !DecidesAgain(w, l, w')
  {
    if w'.rows != w.rows {
      assert |w'.rows| == |w.rows| + 1 && w'.rows[..|w.rows|] == w.rows;
      var row := w'.rows[|w.rows|];
      if DecisionsDistinct(w'.rows) {
        forall i, j | 0 <= i < j < |w.rows| && w.rows[i].Decision? && w.rows[j].Decision?
          ensures w.rows[i].id != w.rows[j].id
        {
          assert w'.rows[i] == w.rows[i] && w'.rows[j] == w.rows[j];
        }
      }
    }
  }

  lemma {:induction false} DistinctIffNoneAgain(names: Names, steps: seq<Step>, ws: seq<World>, n: nat)
    requires IsTrace(Steps(names), steps, ws) && ws[0] == EMPTY && n <= |steps|
    ensures DecisionsDistinct(ws[n].rows) <==> forall m :: 0 <= m < n ==> !DecidesAgain(ws[m], steps[m], ws[m + 1])
  {
    if n > 0 {
      DistinctIffNoneAgain(names, steps, ws, n - 1);
      assert Steps(names)(ws[n - 1], steps[n - 1], ws[n]);
      StepDecides(names, ws[n - 1], steps[n - 1], ws[n]);
    }
  }

  /** Over every run, however the operations of several processes interleave, the check finds
      nothing exactly if no candidate was decided when it had been decided already. */
  lemma VerifiesExactly(names: Names, steps: seq<Step>, ws: seq<World>, n: nat)
    requires IsTrace(Steps(names), steps, ws) && ws[0] == EMPTY && n <= |steps|
    ensures Sound(names, ws[n]) <==> forall m :: 0 <= m < n ==> !DecidesAgain(ws[m], steps[m], ws[m + 1])
  {
    AlwaysInv(names, steps, ws, n);
    SoundIffDistinct(names, ws[n]);
    DistinctIffNoneAgain(names, steps, ws, n);
  }

  // ---- one writer at a time ----

  lemma OneMoreRow(rows: seq<Row>, row: Row)
    ensures forall id :: CandidateOf(rows + [row], id).Some? <==>
              CandidateOf(rows, id).Some? || (row.Candidate? && row.id == id)
    ensures forall id :: Decided(rows + [row], id) <==> Decided(rows, id) || (row.Decision? && row.id == id)
  {
    forall id
      ensures CandidateOf(rows + [row], id).Some? <==> CandidateOf(rows, id).Some? || (row.Candidate? && row.id == id)
    {
      CandidateOfMore(rows, row, id);
    }
    forall id ensures Decided(rows + [row], id) <==> Decided(rows, id) || (row.Decision? && row.id == id) {
      DecidedMore(rows, row, id);
    }
  }

  /** A candidate whose identifier is its digest, with the workspace as the scope it lacks or without any scope. */
  predicate Digested(names: Names, row: Row) {
    && row.Candidate?
    && var scope := if row.fields.scope.Some? then row.fields.scope.value else "workspace";
       row.id in {names.candidateId(row.fields.(scope := Some(scope))), names.candidateId(row.fields.(scope := None))}
  }

  /** pending_candidates: the candidates on record, each once, without those decided. */
  method PendingCandidates(names: Names, rows: seq<Row>, includeDecided: bool) returns (r: Option<seq<string>>)
    ensures r.Some? <==> forall row :: row in rows && row.Candidate? ==> Digested(names, row)
    ensures r.Some? ==> Distinct(r.value) && forall id :: id in r.value <==>
                                               CandidateOf(rows, id).Some? && (includeDecided || !Decided(rows, id))
  {
    var candidates: seq<string>, decided: set<string> := [], {};
    for i := 0 to |rows|
      invariant forall k :: 0 <= k < i && rows[k].Candidate? ==> Digested(names, rows[k])
      invariant Distinct(candidates) && forall id :: id in candidates <==> CandidateOf(rows[..i], id).Some?
      invariant forall id :: id in decided <==> Decided(rows[..i], id)
    {
      var row := rows[i];
      assert rows[..i + 1] == rows[..i] + [row];
      OneMoreRow(rows[..i], row);
      if row.Decision? {
        decided := decided + {row.id};
      } else {
        if !Digested(names, row) { return None; }
        if row.id !in candidates { candidates := candidates + [row.id]; }
      }
    }
    assert rows[..|rows|] == rows;
    var pending := Without(candidates, if includeDecided then {} else decided);
    return Some(pending);
  }

  method Without(ids: seq<string>, out: set<string>) returns (r: seq<string>)
    requires Distinct(ids)
    ensures Distinct(r) && forall id :: id in r <==> id in ids && id !in out
  {
    r := [];
    for i := 0 to |ids|
      invariant Distinct(r) && forall id :: id in r <==> id in ids[..i] && id !in out
    {
      assert ids[..i + 1] == ids[..i] + [ids[i]];
      if ids[i] !in out { r := r + [ids[i]]; }
    }
    assert ids[..|ids|] == ids;
  }

  predicate HasPrefix(s: string, prefix: string) { |prefix| <= |s| && s[..|prefix|] == prefix }

  /** A selector as it is typed: white space around it and one leading at sign do not count. */
  function Prefix(selector: string): string {
    var s := Strip(selector); if HasPrefix(s, "@") then s[1..] else s
  }

  /** The only pending candidate with the prefix. */
  ghost predicate Only(rows: seq<Row>, selector: string, id: string) {
    forall x :: x == id <==> CandidateOf(rows, x).Some? && !Decided(rows, x) && HasPrefix(x, selector)
  }

  /** _resolve_candidate: the one pending candidate whose id starts with the selector. */
  method ResolveCandidate(names: Names, rows: seq<Row>, selector: string) returns (r: Option<string>)
    ensures r.Some? ==> Only(rows, Prefix(selector), r.value)
    ensures r.None? && (forall row :: row in rows && row.Candidate? ==> Digested(names, row)) ==>
              forall id :: !Only(rows, Prefix(selector), id)
  {
    var prefix := Prefix(selector);
    var pending := PendingCandidates(names, rows, false);
    if pending.None? { return None; }
    var matches := [];
    for i := 0 to |pending.value|
      invariant Distinct(matches) && forall id :: id in matches <==> id in pending.value[..i] && HasPrefix(id, prefix)
    {
      assert pending.value[..i + 1] == pending.value[..i] + [pending.value[i]];
      if HasPrefix(pending.value[i], prefix) { matches := matches + [pending.value[i]]; }
    }
    assert pending.value[..|pending.value|] == pending.value;
    forall id | Only(rows, prefix, id) ensures matches == [id] { OnlyMatch(matches, id); }
    if |matches| != 1 { return None; }
    assert matches[0] in matches;
    return Some(matches[0]);
  }

  lemma OnlyMatch(matches: seq<string>, id: string)
    requires Distinct(matches) && forall x :: x in matches <==> x == id
    ensures matches == [id]
  {
    assert id in matches;
    if |matches| > 1 { TwoDiffer(matches, 0, 1); }
  }

  lemma TwoDiffer<T>(xs: seq<T>, i: nat, j: nat)
    requires Distinct(xs) && i < j < |xs|
    ensures xs[i] in xs && xs[j] in xs && xs[i] != xs[j]
  {
  }

  /** When every decision is taken on a candidate still pending the check always finds nothing. */
  lemma PendingDecisionsVerify(names: Names, steps: seq<Step>, ws: seq<World>, n: nat)
    requires IsTrace(Steps(names), steps, ws) && ws[0] == EMPTY && n <= |steps|
    requires forall m :: 0 <= m < n && steps[m].Decide? ==> !Decided(ws[m].rows, steps[m].id)
    ensures Sound(names, ws[n])
  {
    VerifiesExactly(names, steps, ws, n);
  }

  /** Two decisions on one candidate are reported for good. */
  lemma RaceIsReported(names: Names, steps: seq<Step>, ws: seq<World>, i: nat, j: nat, n: nat)
    requires IsTrace(Steps(names), steps, ws) && ws[0] == EMPTY && i < j < n <= |steps|
    requires steps[i].Decide? && steps[j].Decide? && steps[i].id == steps[j].id
    requires ws[i + 1] != ws[i] && ws[j + 1] != ws[j]
    ensures !Sound(names, ws[n])
  {
    assert Steps(names)(ws[i], steps[i], ws[i + 1]);
    DecidedMore(ws[i].rows, ws[i + 1].rows[|ws[i].rows|], steps[i].id);
    DecidedStays(names, steps, ws, i + 1, j, steps[i].id);
    assert DecidesAgain(ws[j], steps[j], ws[j + 1]);
    VerifiesExactly(names, steps, ws, n);
  }

  lemma {:induction false} DecidedStays(names: Names, steps: seq<Step>, ws: seq<World>, i: nat, j: nat, id: string)
    requires IsTrace(Steps(names), steps, ws) && i <= j <= |steps| && Decided(ws[i].rows, id)
    ensures Decided(ws[j].rows, id)
  {
    if i < j {
      DecidedStays(names, steps, ws, i, j - 1, id);
      assert Steps(names)(ws[j - 1], steps[j - 1], ws[j]);
      if ws[j].rows != ws[j - 1].rows { DecidedMore(ws[j - 1].rows, ws[j].rows[|ws[j - 1].rows|], id); }
    }
  }
}
