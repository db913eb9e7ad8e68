/** Several processes on one conversation memory.  Each first resolves a candidate, then decides it; the lock of
    the log covers only the writing of the decision, so that anything can happen in between. */
module ConversationProcesses {
  import opened CanonicalJson
  import opened Traces
  import opened ConversationMemory
  import opened ConversationRuns

  datatype Action = Resolve(process: nat, selector: string) | Do(process: nat, step: Step)

  /** What is stored, and the candidate that each process has resolved and not decided yet. */
  datatype Session = Session(world: World, resolved: map<nat, string>)

  const NOTHING := Session(EMPTY, map[])

  /** A process decides only what it has resolved, and resolves anew for the next decision; a selector that
      does not single out a pending candidate, and an operation that is refused, change nothing. */
  ghost predicate Acts(names: Names, s: Session, a: Action, s': Session) {
    match a
    case Resolve(p, selector) =>
      s' == s || (s'.world == s.world && p in s'.resolved && s'.resolved == s.resolved[p := s'.resolved[p]]
                  && Only(s.world.rows, Prefix(selector), s'.resolved[p]))
    case Do(p, step) =>
      && Step1(names, s.world, step, s'.world)
      && (step.Decide? ==> p in s.resolved && s.resolved[p] == step.id)
      && s'.resolved == if step.Decide? then s.resolved - {p} else s.resolved
  }

  ghost function Actions(names: Names): (Session, Action, Session) -> bool { (s, a, s') => Acts(names, s, a, s') }

  // ---- the run underneath ----

  /** Resolving does nothing to what is stored. */
  function StepOf(a: Action): Step { if a.Do? then a.step else Record("", "", "", "") }

  function StepsOf(actions: seq<Action>): (steps: seq<Step>)
    ensures |steps| == |actions| && forall i :: 0 <= i < |steps| ==> steps[i] == StepOf(actions[i])
  {
    seq(|actions|, i requires 0 <= i < |actions| => StepOf(actions[i]))
  }

  function WorldsOf(ss: seq<Session>): (ws: seq<World>)
    ensures |ws| == |ss| && forall i :: 0 <= i < |ws| ==> ws[i] == ss[i].world
  {
    seq(|ss|, i requires 0 <= i < |ss| => ss[i].world)
  }

  lemma IsRun(names: Names, actions: seq<Action>, ss: seq<Session>)
    requires IsTrace(Actions(names), actions, ss)
    ensures IsTrace(Steps(names), StepsOf(actions), WorldsOf(ss))
  {
    var steps, ws := StepsOf(actions), WorldsOf(ss);
    forall i | 0 <= i < |steps| ensures Steps(names)(ws[i], steps[i], ws[i + 1]) {
      assert Actions(names)(ss[i], actions[i], ss[i + 1]);
    }
  }

  // ---- overtaking ----

  /** Action m writes a decision on the candidate. */
  ghost predicate DecidesAt(actions: seq<Action>, ss: seq<Session>, m: nat, id: string) {
    m < |actions| && |ss| == |actions| + 1 && actions[m].Do? && actions[m].step.Decide? && actions[m].step.id == id
    && ss[m + 1].world != ss[m].world
  }

  /** Action r resolves the candidate for the process. */
  ghost predicate ResolvesAt(actions: seq<Action>, ss: seq<Session>, r: nat, p: nat, id: string) {
    r < |actions| && |ss| == |actions| + 1 && actions[r].Resolve? && actions[r].process == p
    && p in ss[r + 1].resolved && ss[r + 1].resolved[p] == id && Only(ss[r].world.rows, Prefix(actions[r].selector), id)
  }

  ghost predicate OvertakenBy(actions: seq<Action>, ss: seq<Session>, r: nat, k: nat, m: nat, id: string) {
    && r < k < m && DecidesAt(actions, ss, m, id) && ResolvesAt(actions, ss, r, actions[m].process, id)
    && DecidesAt(actions, ss, k, id) && actions[k].process != actions[m].process
  }

  /** Action m decides a candidate that another process has decided since it was resolved. */
  ghost predicate Overtaken(actions: seq<Action>, ss: seq<Session>, m: nat) {
    exists r: nat, k: nat, id :: OvertakenBy(actions, ss, r, k, m, id)
  }

  /** What a process has resolved, it has resolved at some moment, and not decided since. */
  lemma {:induction false} ResolvedSince(names: Names, actions: seq<Action>, ss: seq<Session>, m: nat, p: nat)
    returns (r: nat)
    requires IsTrace(Actions(names), actions, ss) && ss[0] == NOTHING && m <= |actions| && p in ss[m].resolved
    ensures r < m && ResolvesAt(actions, ss, r, p, ss[m].resolved[p])
    ensures forall i :: r < i <= m ==> p in ss[i].resolved
  {
    assert Actions(names)(ss[m - 1], actions[m - 1], ss[m]);
    var a := actions[m - 1];
    if a.Resolve? && a.process == p && ss[m] != ss[m - 1] {
      r := m - 1;
    } else {
      r := ResolvedSince(names, actions, ss, m - 1, p);
    }
  }

  /** A candidate undecided then and decided now was decided by an action in between. */
  lemma {:induction false} DecidedBetween(names: Names, actions: seq<Action>, ss: seq<Session>, r: nat, m: nat,
                                          id: string)
    returns (k: nat)
    requires IsTrace(Actions(names), actions, ss) && r <= m <= |actions|
    requires !Decided(ss[r].world.rows, id) && Decided(ss[m].world.rows, id)
    ensures r <= k < m && DecidesAt(actions, ss, k, id)
  {
    if Decided(ss[m - 1].world.rows, id) {
      k := DecidedBetween(names, actions, ss, r, m - 1, id);
    } else {
      k := m - 1;
      assert Actions(names)(ss[k], actions[k], ss[m]);
      OnlyDecideDecides(names, ss[k].world, StepOf(actions[k]), ss[m].world, id);
    }
  }

  lemma OnlyDecideDecides(names: Names, w: World, l: Step, w': World, id: string)
    requires Step1(names, w, l, w') && !Decided(w.rows, id) && Decided(w'.rows, id)
    ensures l.Decide? && l.id == id && w' != w
  {
    if w'.rows != w.rows { OneMoreRow(w.rows, w'.rows[|w.rows|]); }
  }

  lemma DecidesAgainIffOvertaken(names: Names, actions: seq<Action>, ss: seq<Session>, m: nat)
    requires IsTrace(Actions(names), actions, ss) && ss[0] == NOTHING && m < |actions|
    ensures DecidesAgain(ss[m].world, StepOf(actions[m]), ss[m + 1].world) <==> Overtaken(actions, ss, m)
  {
    assert Actions(names)(ss[m], actions[m], ss[m + 1]);
    if DecidesAgain(ss[m].world, StepOf(actions[m]), ss[m + 1].world) {
      var p, id := actions[m].process, actions[m].step.id;
      var r := ResolvedSince(names, actions, ss, m, p);
      var k := DecidedBetween(names, actions, ss, r, m, id);
      assert Actions(names)(ss[k], actions[k], ss[k + 1]);
      assert OvertakenBy(actions, ss, r, k, m, id);
    }
    if Overtaken(actions, ss, m) {
      var r: nat, k: nat, id :| OvertakenBy(actions, ss, r, k, m, id);
      DecidedAfter(names, actions, ss, k, m, id);
    }
  }

  lemma DecidedAfter(names: Names, actions: seq<Action>, ss: seq<Session>, k: nat, m: nat, id: string)
    requires IsTrace(Actions(names), actions, ss) && k < m <= |actions| && DecidesAt(actions, ss, k, id)
    ensures Decided(ss[m].world.rows, id)
  {
    IsRun(names, actions, ss);
    var ws := WorldsOf(ss);
    assert Actions(names)(ss[k], actions[k], ss[k + 1]);
    DecidedMore(ws[k].rows, ws[k + 1].rows[|ws[k].rows|], id);
    DecidedStays(names, StepsOf(actions), ws, k + 1, m, id);
  }

  /** However the processes interleave, the check finds nothing if and only if no process has decided a candidate
      that another one decided after it had resolved it. */
  lemma InterleavingsVerifyExactly(names: Names, actions: seq<Action>, ss: seq<Session>, n: nat)
    requires IsTrace(Actions(names), actions, ss) && ss[0] == NOTHING && n <= |actions|
    ensures Sound(names, ss[n].world) <==> forall m :: 0 <= m < n ==> !Overtaken(actions, ss, m)
  {
    var steps, ws := StepsOf(actions), WorldsOf(ss);
    IsRun(names, actions, ss);
    VerifiesExactly(names, steps, ws, n);
    forall m | 0 <= m < n ensures DecidesAgain(ws[m], steps[m], ws[m + 1]) <==> Overtaken(actions, ss, m) {
      DecidesAgainIffOvertaken(names, actions, ss, m);
    }
  }

  /** A single process is never overtaken: whatever it resolves and decides, the check finds nothing. */
  lemma SingleWriterVerifies(names: Names, actions: seq<Action>, ss: seq<Session>, n: nat, p: nat)
    requires IsTrace(Actions(names), actions, ss) && ss[0] == NOTHING && n <= |actions|
    requires forall m :: 0 <= m < n ==> actions[m].process == p
    ensures Sound(names, ss[n].world)
  {
    assert forall m :: 0 <= m < n ==> !Overtaken(actions, ss, m);
    InterleavingsVerifyExactly(names, actions, ss, n);
  }

  // ---- the race ----

  function RaceActions(names: Names, role: string, value: string): seq<Action> {
    var id := names.candidateId(FieldsOf(MakeEvent(names, "c", 0, role, value, ""), value));
    [Do(0, Record("c", role, value, "")), Do(0, Stage("c", 0, value)), Resolve(0, ""), Resolve(1, ""),
     Do(0, Decide(id, false, 0)), Do(1, Decide(id, false, 0))]
  }

  lemma OneIsPending(rows: seq<Row>, id: string, fields: Fields)
    requires rows == [Candidate(id, fields)]
    ensures Only(rows, Prefix(""), id) && CandidateOf(rows, id) == Some(fields)
  {
    assert rows[..0] == [];
    forall x ensures CandidateOf(rows, x).Some? <==> x == id { assert CandidateOf([], x).None?; }
  }

  lemma SixActions(names: Names, actions: seq<Action>, ss: seq<Session>)
    requires |actions| == 6 && |ss| == 7
    requires Acts(names, ss[0], actions[0], ss[1]) && Acts(names, ss[1], actions[1], ss[2])
    requires Acts(names, ss[2], actions[2], ss[3]) && Acts(names, ss[3], actions[3], ss[4])
    requires Acts(names, ss[4], actions[4], ss[5]) && Acts(names, ss[5], actions[5], ss[6])
    ensures IsTrace(Actions(names), actions, ss)
  {
  }

  function RaceWorld(names: Names, fields: Fields, decisions: seq<Row>, e: Event): World {
    World(map["c" := [e]], [Candidate(names.candidateId(fields), fields)] + decisions, [])
  }

  lemma Recorded(names: Names, role: string, value: string, e: Event)
    requires role in names.roles && e == MakeEvent(names, "c", 0, role, value, "")
    ensures Takes(names, EMPTY, Record("c", role, value, ""), World(map["c" := [e]], [], []))
  {
    assert LogOf(EMPTY, "c") + [e] == [e] && EMPTY.logs["c" := [e]] == map["c" := [e]];
  }

  lemma StagedFirst(names: Names, value: string, e: Event)
    ensures Takes(names, World(map["c" := [e]], [], []), Stage("c", 0, value),
                  RaceWorld(names, FieldsOf(e, value), [], e))
  {
    assert CandidateOf([], names.candidateId(FieldsOf(e, value))).None?;
  }

  lemma DecidedNext(names: Names, fields: Fields, decisions: seq<Row>, e: Event)
    requires forall row :: row in decisions ==> row.Decision?
    ensures var id := names.candidateId(fields);
            Takes(names, RaceWorld(names, fields, decisions, e), Decide(id, false, 0),
                  RaceWorld(names, fields, decisions + [Decision(id, false, None)], e))
  {
    var id := names.candidateId(fields);
    var w := RaceWorld(names, fields, decisions, e);
    StillCandidate(id, fields, decisions);
    assert w.rows + [Decision(id, false, None)] == [Candidate(id, fields)] + (decisions + [Decision(id, false, None)]);
  }

  lemma {:induction false} StillCandidate(id: string, fields: Fields, decisions: seq<Row>)
    requires forall row :: row in decisions ==> row.Decision?
    ensures CandidateOf([Candidate(id, fields)] + decisions, id) == Some(fields)
  {
    var rows := [Candidate(id, fields)] + decisions;
    if decisions == [] {
      OneIsPending([Candidate(id, fields)], id, fields);
      assert rows == [Candidate(id, fields)];
    } else {
      var front, last := decisions[..|decisions| - 1], decisions[|decisions| - 1];
      assert last in decisions;
      StillCandidate(id, fields, front);
      CandidateStays([Candidate(id, fields)] + front, last, id);
      assert rows == [Candidate(id, fields)] + front + [last];
    }
  }

  lemma RaceTrace(names: Names, role: string, value: string, e: Event, fields: Fields, id: string)
    returns (ss: seq<Session>)
    requires role in names.roles && e == MakeEvent(names, "c", 0, role, value, "")
    requires fields == FieldsOf(e, value) && id == names.candidateId(fields)
    ensures IsTrace(Actions(names), RaceActions(names, role, value), ss) && ss[0] == NOTHING
    ensures ss[6].world == RaceWorld(names, fields, [Decision(id, false, None)] + [Decision(id, false, None)], e)
  {
    var one := [Decision(id, false, None)];
    var w1, w2, w3 := World(map["c" := [e]], [], []), RaceWorld(names, fields, [], e), RaceWorld(names, fields, one, e);
    Recorded(names, role, value, e);
    StagedFirst(names, value, e);
    OneIsPending(w2.rows, id, fields);
    DecidedNext(names, fields, [], e);
    DecidedNext(names, fields, one, e);
    assert [] + one == one;
    ss := [NOTHING, Session(w1, map[]), Session(w2, map[]), Session(w2, map[0 := id]),
           Session(w2, map[0 := id, 1 := id]), Session(w3, map[1 := id]),
           Session(RaceWorld(names, fields, one + one, e), map[])];
    SixActions(names, RaceActions(names, role, value), ss);
  }

  lemma OneDecisionIsFine(names: Names, actions: seq<Action>, ss: seq<Session>)
    requires IsTrace(Actions(names), actions, ss) && ss[0] == NOTHING && |actions| == 6
    requires forall k :: 0 <= k < 4 ==> !StepOf(actions[k]).Decide?
    ensures Sound(names, ss[5].world)
  {
    InterleavingsVerifyExactly(names, actions, ss, 5);
  }

  /** Two processes resolve the one pending candidate and then decide it: after the first decision the check finds
      nothing, after the second it does. */
  lemma RaceRun(names: Names, role: string, value: string) returns (ss: seq<Session>)
    requires role in names.roles
    ensures IsTrace(Actions(names), RaceActions(names, role, value), ss) && ss[0] == NOTHING
    ensures Sound(names, ss[5].world) && !Sound(names, ss[6].world)
  {
    var e := MakeEvent(names, "c", 0, role, value, "");
    var fields := FieldsOf(e, value);
    var id := names.candidateId(fields);
    ss := RaceTrace(names, role, value, e, fields, id);
    OneDecisionIsFine(names, RaceActions(names, role, value), ss);
    var rows := ss[6].world.rows;
    assert rows[1] == rows[2] == Decision(id, false, None);
    assert !DecisionsDistinct(rows);
  }
}
