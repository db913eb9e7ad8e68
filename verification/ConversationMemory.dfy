/** Conversation memory: raw events, candidate memories and the decisions about them, cards of the
    store bound to their evidence, and the check that reads all of it back. */
module ConversationMemory {
  import opened CanonicalJson
  import opened Ordering

  /** Digests and names; nothing is required of them. */
  datatype Names = Names(refHead: string, eventId: string -> string, eventSha: (string, string, string) -> string,
                         candidateId: Fields -> string, roles: set<string>)

  datatype Event = Event(conversation: string, sequence: nat, id: string, ref: string, sha: string,
                         role: string, content: string, createdAt: string)

  /** What a candidate's id is the digest of; candidates of the first format have no scope. */
  datatype Fields = Fields(value: string, ref: string, sha: string, eventId: string, createdAt: string,
                           scope: Option<string>)

  datatype Row = Candidate(id: string, fields: Fields) | Decision(id: string, approved: bool, card: Option<nat>)

  datatype Kind = ConversationEvent | ForgetEvent | OtherSource
  datatype Source = Source(kind: Kind, ref: string, sha: string, origin: string)
  datatype Card = Card(active: bool, sources: set<Source>)

  /** One log for each conversation, the log of candidates, and the store; cards are numbered. */
  datatype World = World(logs: map<string, seq<Event>>, rows: seq<Row>, cards: seq<Card>)

  function Ref(names: Names, conversation: string, sequence: nat): string {
    names.refHead + conversation + ":" + NatText(sequence)
  }

  function MakeEvent(names: Names, conversation: string, sequence: nat, role: string, content: string,
                     createdAt: string): Event {
    var ref := Ref(names, conversation, sequence);
    Event(conversation, sequence, names.eventId(ref), ref, names.eventSha(role, content, createdAt), role, content,
          createdAt)
  }

  /** The event equals the one recreated from its own fields. */
  predicate Authentic(names: Names, e: Event) {
    e.id == names.eventId(e.ref) && e.sha == names.eventSha(e.role, e.content, e.createdAt) && e.role in names.roles
  }

  predicate InLog(logs: map<string, seq<Event>>, e: Event) { exists c :: c in logs && e in logs[c] }

  ghost predicate Evidenced(logs: map<string, seq<Event>>, ref: string, sha: string) {
    exists e :: InLog(logs, e) && e.ref == ref && e.sha == sha
  }

  // ---- references are unambiguous ----

  lemma {:induction false} NatTextInjective(m: nat, n: nat)
    requires NatText(m) == NatText(n)
    ensures m == n
    decreases m + n
  {
    var s, t := NatText(m), NatText(n);
    assert s[|s| - 1] == HexDigit(m % 10) && t[|t| - 1] == HexDigit(n % 10);
    assert m % 10 == n % 10;
    if m >= 10 && n >= 10 {
      assert s[..|s| - 1] == NatText(m / 10) && t[..|t| - 1] == NatText(n / 10);
      NatTextInjective(m / 10, n / 10);
    }
  }

  /** The last colon splits the text. */
  lemma LastColon(a: string, b: string, s: string, t: string)
    requires a + ":" + s == b + ":" + t && ':' !in s && ':' !in t
    ensures a == b && s == t
  {
    var u := a + ":" + s;
    assert u[|a|] == ':' && u[|b|] == ':';
    assert forall i :: |a| < i < |u| ==> u[i] == s[i - |a| - 1];
    assert forall i :: |b| < i < |u| ==> u[i] == t[i - |b| - 1];
    assert u[..|a|] == a && u[|a| + 1..] == s;
    assert u[..|b|] == b && u[|b| + 1..] == t;
  }

  lemma RefInjective(names: Names, c: string, m: nat, d: string, n: nat)
    requires Ref(names, c, m) == Ref(names, d, n)
    ensures c == d && m == n
  {
    var head := names.refHead;
    LastColon(head + c, head + d, NatText(m), NatText(n));
    assert (head + c)[|head|..] == c && (head + d)[|head|..] == d;
    NatTextInjective(m, n);
  }

  // ---- what the check asks for ----

  predicate Decided(rows: seq<Row>, id: string) { exists i :: 0 <= i < |rows| && rows[i].Decision? && rows[i].id == id }

  /** The candidate record of an id; a later one would win. */
  function CandidateOf(rows: seq<Row>, id: string): (r: Option<Fields>)
    ensures r.Some? ==> Candidate(id, r.value) in rows
    ensures r.None? ==> forall i :: 0 <= i < |rows| && rows[i].Candidate? ==> rows[i].id != id
  {
    if rows == [] then None else
      var last := rows[|rows| - 1];
      if last.Candidate? && last.id == id then Some(last.fields) else CandidateOf(rows[..|rows| - 1], id)
  }

  /** A conversation's log holds its own events, numbered by their position. */
  predicate EventsBound(names: Names, c: string, log: seq<Event>) {
    forall i :: 0 <= i < |log| ==> EventBound(names, c, log[i], i)
  }

  ghost predicate Unambiguous(logs: map<string, seq<Event>>) {
    forall e, f :: InLog(logs, e) && InLog(logs, f) && e.ref == f.ref ==> e.sha == f.sha
  }

  predicate IsCandidate(names: Names, row: Row) {
    && row.Candidate? && (row.fields.scope.Some? ==> row.fields.scope.value in {"user", "workspace"})
    && row.id == names.candidateId(row.fields)
  }

  ghost predicate CandidatesBound(names: Names, w: World) {
    forall i :: 0 <= i < |w.rows| && w.rows[i].Candidate? ==>
      IsCandidate(names, w.rows[i]) && Evidenced(w.logs, w.rows[i].fields.ref, w.rows[i].fields.sha)
  }

  predicate DecisionsDistinct(rows: seq<Row>) {
    forall i, j :: 0 <= i < j < |rows| && rows[i].Decision? && rows[j].Decision? ==> rows[i].id != rows[j].id
  }

  ghost predicate SourcesBound(w: World) {
    forall k, s :: 0 <= k < |w.cards| && s in w.cards[k].sources && !s.kind.OtherSource? ==>
      Evidenced(w.logs, s.ref, s.sha)
  }

  predicate Holds(card: Card, ref: string, sha: string) {
    exists s :: s in card.sources && s.ref == ref && s.sha == sha
  }

  /** An approval names a card that holds the candidate's evidence, a dismissal names none. */
  predicate DecisionBound(w: World, row: Row)
    requires row.Decision?
  {
    var c := CandidateOf(w.rows, row.id);
    c.Some? && if row.approved
               then row.card.Some? && row.card.value < |w.cards|
                    && Holds(w.cards[row.card.value], c.value.ref, c.value.sha)
               else row.card.None?
  }

  predicate DecisionsBound(w: World) {
    forall i :: 0 <= i < |w.rows| && w.rows[i].Decision? ==> DecisionBound(w, w.rows[i])
  }

  /** Everything verify_conversation_memory asks for. */
  ghost predicate Sound(names: Names, w: World) {
    && (forall c :: c in w.logs ==> EventsBound(names, c, w.logs[c]))
    && Unambiguous(w.logs) && CandidatesBound(names, w) && DecisionsDistinct(w.rows) && SourcesBound(w)
    && DecisionsBound(w)
  }

  // ---- the check ----

  datatype Finding = BadEvent | AmbiguousRef | BadCandidate | UnknownEvidence | SeveralDecisions | BadSource
    | BadDecision

  /** What is wrong with one row of the candidate log. */
  ghost predicate RowFault(names: Names, logs: map<string, seq<Event>>, rows: seq<Row>, i: nat, f: Finding)
    requires i < |rows|
  {
    var row := rows[i];
    if row.Candidate?
    then (f == BadCandidate && !IsCandidate(names, row))
         || (f == UnknownEvidence && IsCandidate(names, row) && !Evidenced(logs, row.fields.ref, row.fields.sha))
    else f == SeveralDecisions && Decided(rows[..i], row.id)
  }

  ghost predicate FirstRowFault(names: Names, logs: map<string, seq<Event>>, rows: seq<Row>, i: nat, f: Finding) {
    i < |rows| && RowFault(names, logs, rows, i, f) && forall k: nat, g :: k < i ==> !RowFault(names, logs, rows, k, g)
  }

  ghost predicate LogsBound(names: Names, logs: map<string, seq<Event>>) {
    (forall c :: c in logs ==> EventsBound(names, c, logs[c])) && Unambiguous(logs)
  }

  /** What the check reports: one fault of the logs, or else the first of the rows, or else whether there are faults of
      the sources and of the decisions. */
  ghost predicate Reported(names: Names, w: World, errors: seq<Finding>) {
    if !LogsBound(names, w.logs) then
      || (errors == [BadEvent] && exists c :: c in w.logs && !EventsBound(names, c, w.logs[c]))
      || (errors == [AmbiguousRef] && !Unambiguous(w.logs))
    else if exists i: nat, f :: FirstRowFault(names, w.logs, w.rows, i, f)
    then exists i: nat, f :: FirstRowFault(names, w.logs, w.rows, i, f) && errors == [f]
    else (BadSource in errors <==> !SourcesBound(w)) && (BadDecision in errors <==> !DecisionsBound(w))
         && forall f :: f in errors ==> f in {BadSource, BadDecision}
  }

  /** The shas by reference, as the first event with the reference has it. */
  ghost predicate Revisions(events: set<Event>, revisions: map<string, string>) {
    && (forall e :: e in events ==> e.ref in revisions && revisions[e.ref] == e.sha)
    && (forall ref :: ref in revisions ==> exists e :: e in events && e.ref == ref && e.sha == revisions[ref])
  }

  ghost predicate Consistent(events: set<Event>) {
    forall e, f :: e in events && f in events && e.ref == f.ref ==> e.sha == f.sha
  }

  lemma OneMoreEvent(events: set<Event>, revisions: map<string, string>, event: Event)
    requires Revisions(events, revisions)
    ensures event.ref in revisions && revisions[event.ref] != event.sha ==> !Consistent(events + {event})
    ensures (event.ref in revisions && revisions[event.ref] != event.sha)
            || Revisions(events + {event}, revisions[event.ref := event.sha])
  {
    if event.ref in revisions && revisions[event.ref] != event.sha {
      var f :| f in events && f.ref == event.ref && f.sha == revisions[event.ref];
      assert f in events + {event} && event in events + {event};
    }
  }

  lemma MoreStayInconsistent(events: set<Event>, more: set<Event>)
    requires events <= more && !Consistent(events)
    ensures !Consistent(more)
  {
  }

  lemma RevisedIsConsistent(events: set<Event>, revisions: map<string, string>)
    requires Revisions(events, revisions)
    ensures Consistent(events)
  {
  }

  predicate EventBound(names: Names, c: string, e: Event, i: nat) {
    Authentic(names, e) && e.conversation == c && e.sequence == i
  }

  /** The shas by reference after the first n events of a log. */
  function Noted(revisions: map<string, string>, log: seq<Event>, n: nat): map<string, string>
    requires n <= |log|
  {
    if n == 0 then revisions else Noted(revisions, log, n - 1)[log[n - 1].ref := log[n - 1].sha]
  }

  predicate Clean(names: Names, c: string, revisions: map<string, string>, log: seq<Event>, n: nat)
    requires n <= |log|
  {
    n == 0 || (
      var known, e := Noted(revisions, log, n - 1), log[n - 1];
      Clean(names, c, revisions, log, n - 1) && EventBound(names, c, e, n - 1)
      && (e.ref in known ==> known[e.ref] == e.sha))
  }

  /** The n-th event is the first that is not clean, and why. */
  predicate FaultAt(names: Names, c: string, revisions: map<string, string>, log: seq<Event>, n: nat, f: Finding) {
    && n < |log| && Clean(names, c, revisions, log, n)
    && var known, e := Noted(revisions, log, n), log[n];
       if EventBound(names, c, e, n)
       then f == AmbiguousRef && e.ref in known && known[e.ref] != e.sha
       else f == BadEvent
  }

  lemma FaultMeans(names: Names, c: string, revisions: map<string, string>, log: seq<Event>, n: nat, f: Finding,
                   before: set<Event>)
    requires Revisions(before, revisions) && FaultAt(names, c, revisions, log, n, f)
    ensures f == BadEvent ==> !EventsBound(names, c, log)
    ensures f == AmbiguousRef ==> !Consistent(before + Elements(log))
    ensures f in {BadEvent, AmbiguousRef}
  {
    CleanMeans(names, c, revisions, log, n, before);
    if f == AmbiguousRef { ConflictMeans(log, n, before, Noted(revisions, log, n)); }
  }

  lemma ConflictMeans(log: seq<Event>, n: nat, before: set<Event>, known: map<string, string>)
    requires n < |log| && Revisions(before + Elements(log[..n]), known)
    requires log[n].ref in known && known[log[n].ref] != log[n].sha
    ensures !Consistent(before + Elements(log))
  {
    var seen := before + Elements(log[..n]);
    OneMoreEvent(seen, known, log[n]);
    MoreStayInconsistent(seen + {log[n]}, before + Elements(log));
  }

  lemma {:induction false} CleanThroughout(names: Names, c: string, revisions: map<string, string>, log: seq<Event>,
                                           m: nat, n: nat)
    requires m <= n <= |log| && Clean(names, c, revisions, log, n)
    ensures Clean(names, c, revisions, log, m)
  {
    if m < n { CleanThroughout(names, c, revisions, log, m, n - 1); }
  }

  /** The loop over one log. */
  method ReadLog(names: Names, c: string, log: seq<Event>, revisions: map<string, string>)
    returns (r: Option<Finding>, after: map<string, string>)
    ensures r.None? <==> Clean(names, c, revisions, log, |log|)
    ensures r.None? ==> after == Noted(revisions, log, |log|)
    ensures r.Some? ==> exists n: nat :: FaultAt(names, c, revisions, log, n, r.value)
  {
    after := revisions;
    for index := 0 to |log|
      invariant Clean(names, c, revisions, log, index) && after == Noted(revisions, log, index)
    {
      var event := log[index];
      if !EventBound(names, c, event, index) || (event.ref in after && after[event.ref] != event.sha) {
        assert !Clean(names, c, revisions, log, index + 1);
        if Clean(names, c, revisions, log, |log|) { CleanThroughout(names, c, revisions, log, index + 1, |log|); }
        assert FaultAt(names, c, revisions, log, index,
                       if EventBound(names, c, event, index) then AmbiguousRef else BadEvent);
        return Some(if EventBound(names, c, event, index) then AmbiguousRef else BadEvent), after;
      }
      after := after[event.ref := event.sha];
    }
    return None, after;
  }

  lemma {:induction false} CleanMeans(names: Names, c: string, revisions: map<string, string>, log: seq<Event>, n: nat,
                                      before: set<Event>)
    requires n <= |log| && Revisions(before, revisions)
    ensures Clean(names, c, revisions, log, n) <==>
              EventsBound(names, c, log[..n]) && Consistent(before + Elements(log[..n]))
    ensures Clean(names, c, revisions, log, n) ==> Revisions(before + Elements(log[..n]), Noted(revisions, log, n))
  {
    if n == 0 {
      RevisedIsConsistent(before, revisions);
      assert before + Elements(log[..n]) == before;
    } else {
      CleanMeans(names, c, revisions, log, n - 1, before);
      CleanStep(names, c, Noted(revisions, log, n - 1), log[..n - 1], log[n - 1], before);
      assert log[..n] == log[..n - 1] + [log[n - 1]];
    }
  }

  lemma CleanStep(names: Names, c: string, known: map<string, string>, log: seq<Event>, event: Event,
                  before: set<Event>)
    ensures EventsBound(names, c, log + [event]) <==> EventsBound(names, c, log) && EventBound(names, c, event, |log|)
    ensures !Consistent(before + Elements(log)) ==> !Consistent(before + Elements(log + [event]))
    ensures Revisions(before + Elements(log), known) ==>
              (Consistent(before + Elements(log + [event])) <==> (event.ref in known ==> known[event.ref] == event.sha))
    ensures Revisions(before + Elements(log), known) && (event.ref in known ==> known[event.ref] == event.sha) ==>
              Revisions(before + Elements(log + [event]), known[event.ref := event.sha])
  {
    var seen := before + Elements(log);
    assert before + Elements(log + [event]) == seen + {event};
    if !Consistent(seen) { MoreStayInconsistent(seen, seen + {event}); }
    if Revisions(seen, known) {
      OneMoreEvent(seen, known, event);
      if event.ref in known ==> known[event.ref] == event.sha {
        RevisedIsConsistent(seen + {event}, known[event.ref := event.sha]);
      }
    }
    BoundMore(names, c, log, event);
  }

  lemma BoundMore(names: Names, c: string, log: seq<Event>, event: Event)
    ensures EventsBound(names, c, log + [event]) <==> EventsBound(names, c, log) && EventBound(names, c, event, |log|)
  {
    var more := log + [event];
    assert more[|log|] == event && forall i :: 0 <= i < |log| ==> more[i] == log[i];
    if EventsBound(names, c, more) {
      forall i | 0 <= i < |log| ensures EventBound(names, c, log[i], i) { assert EventBound(names, c, more[i], i); }
    }
  }

  method CheckLog(names: Names, c: string, log: seq<Event>, ghost before: set<Event>, revisions: map<string, string>)
    returns (r: Option<Finding>, after: map<string, string>)
    requires Revisions(before, revisions)
    ensures r.None? <==> EventsBound(names, c, log) && Consistent(before + Elements(log))
    ensures r.None? ==> Revisions(before + Elements(log), after)
    ensures r.Some? ==> r.value in {BadEvent, AmbiguousRef}
    ensures r == Some(BadEvent) ==> !EventsBound(names, c, log)
    ensures r == Some(AmbiguousRef) ==> !Consistent(before + Elements(log))
  {
    r, after := ReadLog(names, c, log, revisions);
    if r.Some? {
      ghost var n: nat :| FaultAt(names, c, revisions, log, n, r.value);
      FaultMeans(names, c, revisions, log, n, r.value, before);
    }
    CleanMeans(names, c, revisions, log, |log|, before);
    assert log[..|log|] == log;
  }

  function Elements<T>(xs: seq<T>): set<T> { set x | x in xs }

  /** The events of the logs but for some. */
  function EventsBut(logs: map<string, seq<Event>>, todo: set<string>): set<Event> {
    set c, e | c in logs && c !in todo && e in logs[c] :: e
  }

  /** The loop over the logs. */
  method CheckLogs(names: Names, logs: map<string, seq<Event>>)
    returns (r: Option<Finding>, revisions: map<string, string>)
    ensures r.None? <==> (forall c :: c in logs ==> EventsBound(names, c, logs[c])) && Unambiguous(logs)
    ensures r.None? ==> Revisions(EventsBut(logs, {}), revisions)
    ensures r.Some? ==> r.value in {BadEvent, AmbiguousRef}
    ensures r == Some(BadEvent) ==> exists c :: c in logs && !EventsBound(names, c, logs[c])
    ensures r == Some(AmbiguousRef) ==> !Unambiguous(logs)
  {
    revisions := map[];
    var todo := logs.Keys;
    ghost var done: set<Event> := {};
    while todo != {}
      invariant todo <= logs.Keys && done == EventsBut(logs, todo)
      invariant Revisions(done, revisions) && forall c :: c in logs && c !in todo ==> EventsBound(names, c, logs[c])
      decreases |todo|
    {
      var c :| c in todo;
      todo := todo - {c};
      var finding, more := CheckLog(names, c, logs[c], done, revisions);
      MoreEvents(logs, todo, c);
      if finding.Some? {
        return finding, revisions;
      }
      revisions := more;
      done := done + Elements(logs[c]);
    }
    forall e | InLog(logs, e) ensures e in EventsBut(logs, {}) {}
    return None, revisions;
  }

  lemma MoreEvents(logs: map<string, seq<Event>>, todo: set<string>, c: string)
    requires c in logs && c !in todo
    ensures EventsBut(logs, todo) == EventsBut(logs, todo + {c}) + Elements(logs[c])
    ensures forall e :: e in EventsBut(logs, todo) ==> InLog(logs, e)
  {
    forall e | e in EventsBut(logs, todo)
      ensures e in EventsBut(logs, todo + {c}) + Elements(logs[c]) && InLog(logs, e)
    {
      var d :| d in logs && d !in todo && e in logs[d];
      if d == c { assert e in Elements(logs[c]); } else { assert d !in todo + {c}; }
    }
    forall e | e in Elements(logs[c]) ensures e in EventsBut(logs, todo) {}
  }

  function SourcesUpTo(rows: seq<Row>, n: nat): map<string, Fields>
    requires n <= |rows|
  {
    if n == 0 then map[] else
      var row := rows[n - 1];
      if row.Candidate? then SourcesUpTo(rows, n - 1)[row.id := row.fields] else SourcesUpTo(rows, n - 1)
  }

  function DecisionsUpTo(rows: seq<Row>, n: nat): map<string, Row>
    requires n <= |rows|
  {
    if n == 0 then map[] else
      var row := rows[n - 1];
      if row.Decision? then DecisionsUpTo(rows, n - 1)[row.id := row] else DecisionsUpTo(rows, n - 1)
  }

  /** No decision is about an id decided before. */
  predicate NoneAgain(rows: seq<Row>, n: nat)
    requires n <= |rows|
  {
    n == 0 || (NoneAgain(rows, n - 1) && (rows[n - 1].Decision? ==> rows[n - 1].id !in DecisionsUpTo(rows, n - 1)))
  }

  lemma {:induction false} NoneAgainThroughout(rows: seq<Row>, m: nat, n: nat)
    requires m <= n <= |rows| && NoneAgain(rows, n)
    ensures NoneAgain(rows, m)
  {
    if m < n { NoneAgainThroughout(rows, m, n - 1); }
  }

  predicate RowBound(names: Names, row: Row, revisions: map<string, string>) {
    row.Candidate? ==>
      IsCandidate(names, row) && row.fields.ref in revisions && revisions[row.fields.ref] == row.fields.sha
  }

  /** The loop over the candidate log: candidates are bound to evidence and no id is decided twice. */
  method CheckRows(names: Names, rows: seq<Row>, revisions: map<string, string>, ghost logs: map<string, seq<Event>>)
    returns (r: Option<Finding>, sources: map<string, Fields>, decisions: map<string, Row>)
    requires forall ref, sha {:trigger Evidenced(logs, ref, sha)} ::
               Evidenced(logs, ref, sha) <==> ref in revisions && revisions[ref] == sha
    ensures r.Some? ==> exists i: nat :: FirstRowFault(names, logs, rows, i, r.value)
    ensures r.None? ==> forall i: nat, f :: !FirstRowFault(names, logs, rows, i, f)
    ensures r.None? <==> RowsBound(names, rows, revisions) && NoneAgain(rows, |rows|)
    ensures r.None? ==> sources == SourcesUpTo(rows, |rows|) && decisions == DecisionsUpTo(rows, |rows|)
  {
    sources, decisions := map[], map[];
    for i := 0 to |rows|
      invariant NoneAgain(rows, i) && forall k :: 0 <= k < i ==> RowBound(names, rows[k], revisions)
      invariant sources == SourcesUpTo(rows, i) && decisions == DecisionsUpTo(rows, i)
      invariant forall k: nat, g :: k < i ==> !RowFault(names, logs, rows, k, g)
    {
      var row := rows[i];
      TablesAreRight(rows, i);
      if row.Candidate? {
        if !IsCandidate(names, row) {
          assert FirstRowFault(names, logs, rows, i, BadCandidate);
          return Some(BadCandidate), sources, decisions;
        }
        if row.fields.ref !in revisions || revisions[row.fields.ref] != row.fields.sha {
          assert FirstRowFault(names, logs, rows, i, UnknownEvidence);
          return Some(UnknownEvidence), sources, decisions;
        }
        sources := sources[row.id := row.fields];
      } else {
        if row.id in decisions {
          assert FirstRowFault(names, logs, rows, i, SeveralDecisions);
          if NoneAgain(rows, |rows|) { NoneAgainThroughout(rows, i + 1, |rows|); }
          return Some(SeveralDecisions), sources, decisions;
        }
        decisions := decisions[row.id := row];
      }
    }
    return None, sources, decisions;
  }

  predicate RowsBound(names: Names, rows: seq<Row>, revisions: map<string, string>) {
    forall i :: 0 <= i < |rows| ==> RowBound(names, rows[i], revisions)
  }

  /** The two dictionaries built from the candidate log. */
  ghost predicate Tabulated(rows: seq<Row>, sources: map<string, Fields>, decisions: map<string, Row>) {
    && (forall id :: id in sources <==> CandidateOf(rows, id).Some?)
    && (forall id :: id in sources ==> CandidateOf(rows, id) == Some(sources[id]))
    && (forall id :: id in decisions <==> Decided(rows, id))
    && (forall id :: id in decisions ==> decisions[id].Decision? && decisions[id].id == id && decisions[id] in rows)
  }

  lemma CandidateOfMore(rows: seq<Row>, row: Row, id: string)
    ensures CandidateOf(rows + [row], id) == if row.Candidate? && row.id == id then Some(row.fields)
                                             else CandidateOf(rows, id)
  {
    assert (rows + [row])[..|rows|] == rows;
  }

  lemma DecidedMore(rows: seq<Row>, row: Row, id: string)
    ensures Decided(rows + [row], id) <==> Decided(rows, id) || (row.Decision? && row.id == id)
  {
    var more := rows + [row];
    if Decided(rows, id) {
      var k :| 0 <= k < |rows| && rows[k].Decision? && rows[k].id == id;
      assert more[k] == rows[k];
    }
    assert more[|rows|] == row;
  }

  lemma MoreRows(rows: seq<Row>, i: nat, sources: map<string, Fields>, decisions: map<string, Row>)
    requires i < |rows| && Tabulated(rows[..i], sources, decisions)
    ensures rows[i].Candidate? ==> Tabulated(rows[..i + 1], sources[rows[i].id := rows[i].fields], decisions)
    ensures rows[i].Decision? ==> Tabulated(rows[..i + 1], sources, decisions[rows[i].id := rows[i]])
  {
    assert rows[..i + 1] == rows[..i] + [rows[i]];
    forall id
      ensures CandidateOf(rows[..i + 1], id) == if rows[i].Candidate? && rows[i].id == id then Some(rows[i].fields)
                                                else CandidateOf(rows[..i], id)
    {
      CandidateOfMore(rows[..i], rows[i], id);
    }
    forall id
      ensures Decided(rows[..i + 1], id) <==> Decided(rows[..i], id) || (rows[i].Decision? && rows[i].id == id)
    {
      DecidedMore(rows[..i], rows[i], id);
    }
  }

  lemma {:induction false} TablesAreRight(rows: seq<Row>, n: nat)
    requires n <= |rows|
    ensures Tabulated(rows[..n], SourcesUpTo(rows, n), DecisionsUpTo(rows, n))
    ensures NoneAgain(rows, n) <==> DecisionsDistinct(rows[..n])
  {
    if n > 0 {
      TablesAreRight(rows, n - 1);
      MoreRows(rows, n - 1, SourcesUpTo(rows, n - 1), DecisionsUpTo(rows, n - 1));
      assert rows[..n] == rows[..n - 1] + [rows[n - 1]];
      DistinctMore(rows[..n - 1], rows[n - 1]);
    }
  }

  lemma DistinctMore(rows: seq<Row>, row: Row)
    ensures DecisionsDistinct(rows + [row]) <==> DecisionsDistinct(rows) && (row.Decision? ==> !Decided(rows, row.id))
  {
    var more := rows + [row];
    assert more[|rows|] == row && forall k :: 0 <= k < |rows| ==> more[k] == rows[k];
    if DecisionsDistinct(more) {
      forall i, j | 0 <= i < j < |rows| && rows[i].Decision? && rows[j].Decision? ensures rows[i].id != rows[j].id {
        assert more[i] == rows[i] && more[j] == rows[j];
      }
      forall i | 0 <= i < |rows| && rows[i].Decision? && row.Decision? ensures rows[i].id != row.id {
        assert more[i] == rows[i];
      }
    }
  }

  ghost predicate CardBound(card: Card, revisions: map<string, string>) {
    forall s :: s in card.sources && !s.kind.OtherSource? ==> s.ref in revisions && revisions[s.ref] == s.sha
  }

  /** The loops over the cards and their sources. */
  method CheckCards(cards: seq<Card>, revisions: map<string, string>) returns (errors: seq<Finding>)
    ensures errors == [] <==> forall k :: 0 <= k < |cards| ==> CardBound(cards[k], revisions)
    ensures forall f :: f in errors ==> f == BadSource
  {
    errors := [];
    for k := 0 to |cards|
      invariant errors == [] <==> forall i :: 0 <= i < k ==> CardBound(cards[i], revisions)
      invariant forall f :: f in errors ==> f == BadSource
    {
      var found := CheckSources(cards[k].sources, revisions);
      errors := errors + found;
    }
  }

  method CheckSources(sources: set<Source>, revisions: map<string, string>) returns (errors: seq<Finding>)
    ensures errors == [] <==> CardBound(Card(true, sources), revisions)
    ensures forall f :: f in errors ==> f == BadSource
  {
    errors := [];
    var todo := sources;
    while todo != {}
      invariant todo <= sources && (errors == [] <==> CardBound(Card(true, sources - todo), revisions))
      invariant forall f :: f in errors ==> f == BadSource
      decreases |todo|
    {
      var s :| s in todo;
      var later := todo - {s};
      assert sources - later == (sources - todo) + {s};
      todo := later;
      if !s.kind.OtherSource? && (s.ref !in revisions || revisions[s.ref] != s.sha) { errors := errors + [BadSource]; }
    }
    assert sources - todo == sources;
  }

  predicate DecisionOk(sources: map<string, Fields>, cards: seq<Card>, row: Row)
    requires row.Decision?
  {
    row.id in sources && if row.approved
                         then row.card.Some? && row.card.value < |cards|
                              && Holds(cards[row.card.value], sources[row.id].ref, sources[row.id].sha)
                         else row.card.None?
  }

  /** The loop over the decisions. */
  method CheckDecisions(sources: map<string, Fields>, decisions: map<string, Row>, cards: seq<Card>)
    returns (errors: seq<Finding>)
    requires forall id :: id in decisions ==> decisions[id].Decision?
    ensures errors == [] <==> forall id :: id in decisions ==> DecisionOk(sources, cards, decisions[id])
    ensures forall f :: f in errors ==> f == BadDecision
  {
    errors := [];
    var todo := decisions.Keys;
    while todo != {}
      invariant todo <= decisions.Keys
      invariant errors == [] <==> forall id :: id in decisions && id !in todo ==>
                                    DecisionOk(sources, cards, decisions[id])
      invariant forall f :: f in errors ==> f == BadDecision
      decreases |todo|
    {
      var id :| id in todo;
      todo := todo - {id};
      if !DecisionOk(sources, cards, decisions[id]) { errors := errors + [BadDecision]; }
    }
  }

  lemma RevisionsEvidence(logs: map<string, seq<Event>>, revisions: map<string, string>, ref: string, sha: string)
    requires Revisions(EventsBut(logs, {}), revisions)
    ensures Evidenced(logs, ref, sha) <==> ref in revisions && revisions[ref] == sha
  {
    if Evidenced(logs, ref, sha) {
      var e :| InLog(logs, e) && e.ref == ref && e.sha == sha;
      assert e in EventsBut(logs, {});
    }
  }

  /** Sources and decisions, once the logs and the rows are in order. */
  method CheckBindings(w: World, revisions: map<string, string>, sources: map<string, Fields>,
                       decisions: map<string, Row>) returns (errors: seq<Finding>)
    requires forall ref, sha {:trigger Evidenced(w.logs, ref, sha)} ::
               Evidenced(w.logs, ref, sha) <==> ref in revisions && revisions[ref] == sha
    requires Tabulated(w.rows, sources, decisions) && DecisionsDistinct(w.rows)
    ensures errors == [] <==> SourcesBound(w) && DecisionsBound(w)
    ensures BadSource in errors <==> !SourcesBound(w)
    ensures BadDecision in errors <==> !DecisionsBound(w)
    ensures forall f :: f in errors ==> f in {BadSource, BadDecision}
  {
    var bad := CheckCards(w.cards, revisions);
    CardsMatch(w, revisions);
    var worse := CheckDecisions(sources, decisions, w.cards);
    DecisionsMatch(w, sources, decisions);
    errors := bad + worse;
    assert bad != [] ==> bad[0] in errors;
    assert worse != [] ==> worse[0] in errors;
  }

  /** verify_conversation_memory finds nothing exactly if everything it asks for holds. */
  method Verify(names: Names, w: World) returns (errors: seq<Finding>)
    ensures errors == [] <==> Sound(names, w)
    ensures Reported(names, w, errors)
  {
    var finding, revisions := CheckLogs(names, w.logs);
    if finding.Some? { return [finding.value]; }
    forall ref, sha ensures Evidenced(w.logs, ref, sha) <==> ref in revisions && revisions[ref] == sha {
      RevisionsEvidence(w.logs, revisions, ref, sha);
    }
    RowsMatch(names, w, revisions);
    var problem, sources, decisions := CheckRows(names, w.rows, revisions, w.logs);
    TablesAreRight(w.rows, |w.rows|);
    assert w.rows[..|w.rows|] == w.rows;
    if problem.Some? {
      ghost var i: nat :| FirstRowFault(names, w.logs, w.rows, i, problem.value);
      return [problem.value];
    }
    errors := CheckBindings(w, revisions, sources, decisions);
  }

  lemma RowsMatch(names: Names, w: World, revisions: map<string, string>)
    requires forall ref, sha :: Evidenced(w.logs, ref, sha) <==> ref in revisions && revisions[ref] == sha
    ensures RowsBound(names, w.rows, revisions) <==> CandidatesBound(names, w)
  {
  }

  lemma CardsMatch(w: World, revisions: map<string, string>)
    requires forall ref, sha :: Evidenced(w.logs, ref, sha) <==> ref in revisions && revisions[ref] == sha
    ensures (forall k :: 0 <= k < |w.cards| ==> CardBound(w.cards[k], revisions)) <==> SourcesBound(w)
  {
    if SourcesBound(w) {
      forall k | 0 <= k < |w.cards| ensures CardBound(w.cards[k], revisions) {
        forall s | s in w.cards[k].sources && !s.kind.OtherSource?
          ensures s.ref in revisions && revisions[s.ref] == s.sha
        {
          assert Evidenced(w.logs, s.ref, s.sha);
        }
      }
    }
    if forall k :: 0 <= k < |w.cards| ==> CardBound(w.cards[k], revisions) {
      forall k, s | 0 <= k < |w.cards| && s in w.cards[k].sources && !s.kind.OtherSource?
        ensures Evidenced(w.logs, s.ref, s.sha)
      {
        assert CardBound(w.cards[k], revisions);
      }
    }
  }

  lemma DecisionsMatch(w: World, sources: map<string, Fields>, decisions: map<string, Row>)
    requires Tabulated(w.rows, sources, decisions) && DecisionsDistinct(w.rows)
    ensures (forall id :: id in decisions ==> DecisionOk(sources, w.cards, decisions[id])) <==> DecisionsBound(w)
  {
    forall i | 0 <= i < |w.rows| && w.rows[i].Decision?
      ensures w.rows[i].id in decisions && decisions[w.rows[i].id] == w.rows[i]
    {
      assert Decided(w.rows, w.rows[i].id);
      var j :| 0 <= j < |w.rows| && w.rows[j] == decisions[w.rows[i].id];
    }
    forall row | row in w.rows && row.Decision? ensures DecisionOk(sources, w.cards, row) <==> DecisionBound(w, row) {
      assert CandidateOf(w.rows, row.id).Some? ==> CandidateOf(w.rows, row.id) == Some(sources[row.id]);
    }
  }
}
