/** What the check asks for in full, what each operation of conversation memory does, and what none of them
    takes back. */
module ConversationOutcomes {
  import opened CanonicalJson
  import opened Ordering
  import opened Text
  import opened Traces
  import opened ConversationMemory
  import opened ConversationRuns

  // ---- the check ----

  /** The event stands where it says, in a role there is, under its own digests. */
  ghost predicate OwnEvent(names: Names, c: string, i: nat, e: Event) {
    && e.conversation == c && e.sequence == i && e.role in names.roles
    && e.id == names.eventId(e.ref) && e.sha == names.eventSha(e.role, e.content, e.createdAt)
  }

  ghost predicate Happened(logs: map<string, seq<Event>>, ref: string, sha: string) {
    exists c, i :: c in logs && 0 <= i < |logs[c]| && logs[c][i].ref == ref && logs[c][i].sha == sha
  }

  /** The candidate is named by its digest, has a scope there is or none, and cites an event. */
  ghost predicate OwnCandidate(names: Names, w: World, row: Row)
    requires row.Candidate?
  {
    && row.id == names.candidateId(row.fields)
    && row.fields.scope in {None, Some("user"), Some("workspace")}
    && Happened(w.logs, row.fields.ref, row.fields.sha)
  }

  /** The decision is about the i-th row, the last candidate of its identifier; an approval names a card with that
      candidate's evidence, a dismissal names none. */
  ghost predicate OwnDecision(w: World, row: Row, i: nat)
    requires row.Decision?
  {
    && i < |w.rows| && w.rows[i].Candidate? && w.rows[i].id == row.id
    && (forall j :: i < j < |w.rows| && w.rows[j].Candidate? ==> w.rows[j].id != row.id)
    && if row.approved
       then row.card.Some? && row.card.value < |w.cards|
            && exists s :: s in w.cards[row.card.value].sources
                           && s.ref == w.rows[i].fields.ref && s.sha == w.rows[i].fields.sha
       else row.card.None?
  }

  /** Events with one reference have one digest. */
  ghost predicate SameShas(logs: map<string, seq<Event>>) {
    forall c, d, i, j :: c in logs && d in logs && 0 <= i < |logs[c]| && 0 <= j < |logs[d]| ==>
      (logs[c][i].ref == logs[d][j].ref ==> logs[c][i].sha == logs[d][j].sha)
  }

  ghost predicate InOrder(names: Names, w: World) {
    && (forall c, i :: c in w.logs && 0 <= i < |w.logs[c]| ==> OwnEvent(names, c, i, w.logs[c][i]))
    && SameShas(w.logs)
    && (forall i :: 0 <= i < |w.rows| && w.rows[i].Candidate? ==> OwnCandidate(names, w, w.rows[i]))
    && (forall i, j :: 0 <= i < j < |w.rows| && w.rows[i].Decision? && w.rows[j].Decision? ==>
          w.rows[i].id != w.rows[j].id)
    && (forall k, s :: 0 <= k < |w.cards| && s in w.cards[k].sources && s.kind in {ConversationEvent, ForgetEvent} ==>
          Happened(w.logs, s.ref, s.sha))
    && (forall m :: 0 <= m < |w.rows| && w.rows[m].Decision? ==> exists i: nat :: OwnDecision(w, w.rows[m], i))
  }

  lemma HappenedExactly(logs: map<string, seq<Event>>, ref: string, sha: string)
    ensures Happened(logs, ref, sha) <==> Evidenced(logs, ref, sha)
  {
    if Happened(logs, ref, sha) {
      var c, i :| c in logs && 0 <= i < |logs[c]| && logs[c][i].ref == ref && logs[c][i].sha == sha;
      assert InLog(logs, logs[c][i]);
    }
    if Evidenced(logs, ref, sha) {
      var e :| InLog(logs, e) && e.ref == ref && e.sha == sha;
      var c :| c in logs && e in logs[c];
      var i :| 0 <= i < |logs[c]| && logs[c][i] == e;
    }
  }

  lemma {:induction false} CandidateExactly(rows: seq<Row>, id: string) returns (i: nat)
    ensures match CandidateOf(rows, id)
            case None => forall j :: 0 <= j < |rows| && rows[j].Candidate? ==> rows[j].id != id
            case Some(fields) => i < |rows| && rows[i] == Candidate(id, fields)
                                 && forall j :: i < j < |rows| && rows[j].Candidate? ==> rows[j].id != id
  {
    i := 0;
    if rows != [] {
      var n := |rows| - 1;
      if rows[n].Candidate? && rows[n].id == id {
        i := n;
      } else {
        i := CandidateExactly(rows[..n], id);
        assert forall j :: 0 <= j < n ==> rows[..n][j] == rows[j];
      }
    }
  }

  lemma DecisionExactly(w: World, row: Row)
    requires row.Decision?
    ensures DecisionBound(w, row) <==> exists i: nat :: OwnDecision(w, row, i)
  {
    var i := CandidateExactly(w.rows, row.id);
    var c := CandidateOf(w.rows, row.id);
    if DecisionBound(w, row) { assert OwnDecision(w, row, i); }
    if k: nat :| OwnDecision(w, row, k) {
      assert c.Some? && k == i;
    }
  }

  lemma UnambiguousExactly(logs: map<string, seq<Event>>)
    ensures Unambiguous(logs) <==> SameShas(logs)
  {
    if Unambiguous(logs) {
      forall c, d, i, j | c in logs && d in logs && 0 <= i < |logs[c]| && 0 <= j < |logs[d]|
        ensures logs[c][i].ref == logs[d][j].ref ==> logs[c][i].sha == logs[d][j].sha
      {
        assert InLog(logs, logs[c][i]) && InLog(logs, logs[d][j]);
      }
    } else {
      var e, f :| InLog(logs, e) && InLog(logs, f) && e.ref == f.ref && e.sha != f.sha;
      var c :| c in logs && e in logs[c];
      var d :| d in logs && f in logs[d];
      var i :| 0 <= i < |logs[c]| && logs[c][i] == e;
      var j :| 0 <= j < |logs[d]| && logs[d][j] == f;
    }
  }

  lemma EventsExactly(names: Names, logs: map<string, seq<Event>>)
    ensures (forall c :: c in logs ==> EventsBound(names, c, logs[c])) <==>
            forall c, i :: c in logs && 0 <= i < |logs[c]| ==> OwnEvent(names, c, i, logs[c][i])
  {
    if forall c :: c in logs ==> EventsBound(names, c, logs[c]) {
      forall c, i | c in logs && 0 <= i < |logs[c]| ensures OwnEvent(names, c, i, logs[c][i]) {
        assert EventsBound(names, c, logs[c]) && EventBound(names, c, logs[c][i], i);
      }
    } else {
      var c :| c in logs && !EventsBound(names, c, logs[c]);
      var i :| 0 <= i < |logs[c]| && !EventBound(names, c, logs[c][i], i);
      assert !OwnEvent(names, c, i, logs[c][i]);
    }
  }

  lemma CandidatesExactly(names: Names, w: World)
    ensures CandidatesBound(names, w) <==>
            forall i :: 0 <= i < |w.rows| && w.rows[i].Candidate? ==> OwnCandidate(names, w, w.rows[i])
  {
    forall i | 0 <= i < |w.rows| && w.rows[i].Candidate?
      ensures OwnCandidate(names, w, w.rows[i]) <==>
                IsCandidate(names, w.rows[i]) && Evidenced(w.logs, w.rows[i].fields.ref, w.rows[i].fields.sha)
    {
      HappenedExactly(w.logs, w.rows[i].fields.ref, w.rows[i].fields.sha);
    }
  }

  lemma DecisionsExactly(w: World)
    ensures DecisionsBound(w) <==>
            forall m :: 0 <= m < |w.rows| && w.rows[m].Decision? ==> exists i: nat :: OwnDecision(w, w.rows[m], i)
  {
    forall m | 0 <= m < |w.rows| && w.rows[m].Decision?
      ensures DecisionBound(w, w.rows[m]) <==> exists i: nat :: OwnDecision(w, w.rows[m], i)
    {
      DecisionExactly(w, w.rows[m]);
    }
  }

  lemma SourcesExactly(w: World)
    ensures SourcesBound(w) <==>
            forall k, s :: 0 <= k < |w.cards| && s in w.cards[k].sources && s.kind in {ConversationEvent, ForgetEvent}
              ==> Happened(w.logs, s.ref, s.sha)
  {
    forall ref, sha ensures Happened(w.logs, ref, sha) <==> Evidenced(w.logs, ref, sha) {
      HappenedExactly(w.logs, ref, sha);
    }
  }

  /** What the check asks for, over the rows themselves. */
  lemma SoundExactly(names: Names, w: World)
    ensures Sound(names, w) <==> InOrder(names, w)
  {
    EventsExactly(names, w.logs);
    UnambiguousExactly(w.logs);
    CandidatesExactly(names, w);
    DecisionsExactly(w);
    SourcesExactly(w);
  }

  // ---- the operations ----

  /** When an operation can be taken at all: the role is one there is, the event, the candidate or the card exists. */
  ghost predicate CanTake(names: Names, w: World, l: Step) {
    match l
    case Record(_, role, _, _) => role in names.roles
    case Stage(c, i, _) => c in w.logs && i < |w.logs[c]|
    case Remember(c, i, card) => c in w.logs && i < |w.logs[c]| && HasPlace(w, card, Quoted(w.logs[c][i]))
    case Decide(id, approved, card) =>
      (exists k :: IsCandidateAt(w, id, k))
      && (approved ==> exists k :: IsCandidateAt(w, id, k) && HasPlace(w, card, CitedAt(w, k)))
    case Forget(card, c, i) => card < |w.cards| && c in w.logs && i < |w.logs[c]|
    case Correct(card, c, i) => card < |w.cards| && c in w.logs && i < |w.logs[c]|
  }

  /** The k-th row is the last candidate of this identifier. */
  ghost predicate IsCandidateAt(w: World, id: string, k: nat) {
    && k < |w.rows| && w.rows[k].Candidate? && w.rows[k].id == id
    && forall j :: k < j < |w.rows| && w.rows[j].Candidate? ==> w.rows[j].id != id
  }

  ghost function Quoted(e: Event): Source { Source(ConversationEvent, e.ref, e.sha, "user") }

  ghost function CitedAt(w: World, k: nat): Source
    requires k < |w.rows| && w.rows[k].Candidate?
  {
    Source(ConversationEvent, w.rows[k].fields.ref, w.rows[k].fields.sha, "user")
  }

  /** The store answers with the next free number or with a card that holds the source. */
  ghost predicate HasPlace(w: World, card: nat, s: Source) {
    card == |w.cards| || (card < |w.cards| && s in w.cards[card].sources)
  }

  lemma PlaceExactly(w: World, card: nat, s: Source)
    ensures HasPlace(w, card, s) <==> exists after :: Added(w.cards, after, s, card)
  {
    if card == |w.cards| {
      assert Added(w.cards, w.cards + [Card(true, {s})], s, card);
    } else if HasPlace(w, card, s) {
      assert Added(w.cards, w.cards, s, card);
    }
  }

  lemma CandidateAtExactly(w: World, id: string) returns (k: nat)
    ensures CandidateOf(w.rows, id).Some? <==> exists i :: IsCandidateAt(w, id, i)
    ensures CandidateOf(w.rows, id).Some? ==>
              IsCandidateAt(w, id, k) && w.rows[k].fields == CandidateOf(w.rows, id).value
              && forall i :: IsCandidateAt(w, id, i) ==> i == k
  {
    k := CandidateExactly(w.rows, id);
    if CandidateOf(w.rows, id).Some? { assert IsCandidateAt(w, id, k); }
  }

  /** An operation can be taken exactly if what it names exists. */
  lemma TakenExactly(names: Names, w: World, l: Step)
    ensures CanTake(names, w, l) <==> exists w' :: Takes(names, w, l, w')
  {
    match l
    case Record(c, role, content, createdAt) =>
      var e := MakeEvent(names, c, NextSequence(LogOf(w, c)), role, content, createdAt);
      if CanTake(names, w, l) { assert Takes(names, w, l, w.(logs := w.logs[c := LogOf(w, c) + [e]])); }
    case Stage(c, i, value) =>
      if CanTake(names, w, l) {
        assert Takes(names, w, l, w.(rows := Staged(names, w.rows, FieldsOf(LogOf(w, c)[i], value))));
      }
    case Remember(c, i, card) => RememberTaken(names, w, c, i, card);
    case Decide(id, approved, card) => DecideTaken(names, w, id, approved, card);
    case Forget(card, c, i) =>
      if CanTake(names, w, l) {
        var e := Evidence(ForgetEvent, LogOf(w, c)[i]);
        assert Takes(names, w, l, w.(cards := w.cards[card := Card(false, w.cards[card].sources + {e})]));
      }
    case Correct(card, c, i) =>
      if CanTake(names, w, l) {
        var corrected := Card(true, {Evidence(ConversationEvent, LogOf(w, c)[i])});
        assert Takes(names, w, l, w.(cards := w.cards[card := w.cards[card].(active := false)] + [corrected]));
      }
  }

  lemma RememberTaken(names: Names, w: World, c: string, i: nat, card: nat)
    ensures CanTake(names, w, Remember(c, i, card)) <==> exists w' :: Takes(names, w, Remember(c, i, card), w')
  {
    if i < |LogOf(w, c)| {
      var s := Quoted(LogOf(w, c)[i]);
      PlaceExactly(w, card, s);
      if after :| Added(w.cards, after, s, card) { assert Takes(names, w, Remember(c, i, card), w.(cards := after)); }
    }
  }

  lemma DecideTaken(names: Names, w: World, id: string, approved: bool, card: nat)
    ensures CanTake(names, w, Decide(id, approved, card)) <==>
            exists w' :: Takes(names, w, Decide(id, approved, card), w')
  {
    var k := CandidateAtExactly(w, id);
    var c := CandidateOf(w.rows, id);
    if c.Some? && !approved {
      assert Takes(names, w, Decide(id, approved, card), w.(rows := w.rows + [Decision(id, false, None)]));
    }
    if c.Some? && approved {
      var s := CitedAt(w, k);
      PlaceExactly(w, card, s);
      if after :| Added(w.cards, after, s, card) {
        assert Takes(names, w, Decide(id, approved, card),
                     w.(cards := after, rows := w.rows + [Decision(id, true, Some(card))]));
      }
    }
  }

  // ---- nothing is taken back ----

  /** Logs and rows only grow, cards keep their numbers and their evidence, and no retired card is active again. */
  ghost predicate Kept(w: World, w': World) {
    && (forall c :: c in w.logs ==> c in w'.logs && w.logs[c] <= w'.logs[c])
    && w.rows <= w'.rows && |w.cards| <= |w'.cards|
    && (forall k :: 0 <= k < |w.cards| ==> w.cards[k].sources <= w'.cards[k].sources)
    && (forall k :: 0 <= k < |w.cards| && !w.cards[k].active ==> !w'.cards[k].active)
  }

  ghost function KeptBy(): (World, World) -> bool { (w, w') => Kept(w, w') }

  lemma StepKeepsAll(names: Names, w: World, l: Step, w': World)
    requires Step1(names, w, l, w')
    ensures Kept(w, w')
  {
  }

  lemma AllKept(names: Names, steps: seq<Step>, ws: seq<World>, m: nat, n: nat)
    requires IsTrace(Steps(names), steps, ws) && m <= n <= |steps|
    ensures Kept(ws[m], ws[n])
  {
    var any := (w: World) => true;
    forall w, l, w' | Steps(names)(w, l, w') ensures Kept(w, w') { StepKeepsAll(names, w, l, w'); }
    Monotone(Steps(names), any, KeptBy(), steps, ws, m, n);
  }

  /** A card that was forgotten or corrected is inactive at every later moment, though its evidence stays; forgetting
      also records its own evidence, and correcting makes a new card with nothing but the new evidence. */
  lemma RetiredForGood(names: Names, steps: seq<Step>, ws: seq<World>, m: nat, n: nat)
    requires IsTrace(Steps(names), steps, ws) && m < n <= |steps| && Takes(names, ws[m], steps[m], ws[m + 1])
    requires steps[m].Forget? || steps[m].Correct?
    ensures var card, e, before := steps[m].card, ws[m].logs[steps[m].conversation][steps[m].index], ws[m].cards;
            && card < |ws[n].cards| && !ws[n].cards[card].active && before[card].sources <= ws[n].cards[card].sources
            && var origin := if e.role == "user" then "user" else "agent";
               if steps[m].Forget? then Source(ForgetEvent, e.ref, e.sha, origin) in ws[n].cards[card].sources
               else |ws[m + 1].cards| == |before| + 1
                    && ws[m + 1].cards[|before|] == Card(true, {Source(ConversationEvent, e.ref, e.sha, origin)})
  {
    AllKept(names, steps, ws, m + 1, n);
  }

  // ---- naming a candidate ----

  /** White space around a selector and one at sign before the rest do not count, and everything else does. */
  lemma PrefixExactly(selector: string) returns (front: string, core: string, back: string)
    ensures selector == front + core + back && Blank(front) && Blank(back)
    ensures core != "" ==> !IsSpace(core[0]) && !IsSpace(core[|core| - 1])
    ensures if core != "" && core[0] == '@' then core == "@" + Prefix(selector) else core == Prefix(selector)
  {
    front, back := StripExactly(selector);
    core := Strip(selector);
    if core != "" && core[0] == '@' {
      assert core[..1] == "@";
      assert core == core[..1] + core[1..];
    }
  }
}
