/** When old conversation enters memory formation, and in which batches. */
module Formation {
  import opened CanonicalJson
  import opened Ordering
  import opened Traces

  datatype Event = Event(id: string, conversation: string, sequence: nat, content: string)

  datatype Mode = Blocking | Background | Manual

  datatype Policy = Policy(messageInterval: nat, characterInterval: nat, protectRecent: nat, maxBatch: nat, mode: Mode)
  {
    predicate Valid() { maxBatch >= 1 && (messageInterval > 0 || characterInterval > 0) }
  }

  datatype Reason = NoEligibleMessages | ManualTriggerRequired | Forced | BothThresholds | MessageThreshold
                  | CharacterThreshold | ThresholdNotReached

  datatype Plan = Plan(reason: Reason, selected: seq<Event>, protectedTail: seq<Event>, pendingMessages: nat,
                       pendingCharacters: nat)
  datatype Refusal = SeveralConversations | DuplicateIds | CursorMissing
  datatype Result = Ok(plan: Plan) | Err(refusal: Refusal)

  predicate Earlier(a: Event, b: Event) { a.sequence <= b.sequence }

  function Ordered(events: seq<Event>): seq<Event> { Sort(events, Earlier) }

  function Characters(events: seq<Event>): nat {
    if events == [] then 0 else |events[0].content| + Characters(events[1..])
  }

  /** The first position of an id, or the length if there is none. */
  function IndexOf(events: seq<Event>, id: string, i: nat): (r: nat)
    requires i <= |events|
    ensures i <= r <= |events| && (r < |events| ==> events[r].id == id)
    ensures forall k :: i <= k < r ==> events[k].id != id
    decreases |events| - i
  {
    if i == |events| || events[i].id == id then i else IndexOf(events, id, i + 1)
  }

  function Pending(ordered: seq<Event>, policy: Policy, start: nat): seq<Event> {
    var end := |ordered| - policy.protectRecent;
    if start < end then ordered[start..end] else []
  }

  predicate MessageDue(policy: Policy, pending: seq<Event>) {
    policy.messageInterval > 0 && |pending| >= policy.messageInterval
  }

  predicate CharacterDue(policy: Policy, pending: seq<Event>) {
    policy.characterInterval > 0 && Characters(pending) >= policy.characterInterval
  }

  function PlanAt(ordered: seq<Event>, policy: Policy, start: nat, force: bool): Plan {
    var tail := if policy.protectRecent <= |ordered| then ordered[|ordered| - policy.protectRecent..] else ordered;
    var pending := Pending(ordered, policy, start);
    var messageDue, characterDue := MessageDue(policy, pending), CharacterDue(policy, pending);
    var reason :=
      if pending == [] then NoEligibleMessages
      else if policy.mode.Manual? && !force then ManualTriggerRequired
      else if force then Forced
      else if messageDue && characterDue then BothThresholds
      else if messageDue then MessageThreshold
      else if characterDue then CharacterThreshold
      else ThresholdNotReached;
    var due := (force || messageDue || characterDue) && !reason.ManualTriggerRequired?;
    var selected := if !due then [] else if |pending| <= policy.maxBatch then pending else pending[..policy.maxBatch];
    Plan(reason, selected, tail, |pending|, Characters(pending))
  }

  /** plan_formation */
  function PlanFormation(events: seq<Event>, policy: Policy, after: Option<string>, force: bool): Result {
    PlanOrdered(Ordered(events), policy, after, force)
  }

  datatype Beginning = At(start: nat) | Refused(refusal: Refusal)

  /** Where the pending events begin, if the events and the cursor are acceptable. */
  function Begin(ordered: seq<Event>, after: Option<string>): Beginning {
    if exists i, j :: 0 <= i < j < |ordered| && ordered[i].conversation != ordered[j].conversation
    then Refused(SeveralConversations)
    else if exists i, j :: 0 <= i < j < |ordered| && ordered[i].id == ordered[j].id then Refused(DuplicateIds)
    else if after.None? then At(0)
    else
      var at := IndexOf(ordered, after.value, 0);
      if at == |ordered| then Refused(CursorMissing) else At(at + 1)
  }

  function PlanOrdered(ordered: seq<Event>, policy: Policy, after: Option<string>, force: bool): Result {
    match Begin(ordered, after)
    case Refused(refusal) => Err(refusal)
    case At(start) => Ok(PlanAt(ordered, policy, start, force))
  }

  /** A batch is due exactly if something unprotected is pending and it is forced or, outside
      manual mode, a threshold is reached; it is then the oldest pending part. */
  lemma DueExactly(ordered: seq<Event>, policy: Policy, start: nat, force: bool)
    requires policy.Valid()
    ensures var p := PlanAt(ordered, policy, start, force);
            var pending := Pending(ordered, policy, start);
            && (p.selected != [] <==> pending != [] && (force || (!policy.mode.Manual? &&
                                      (MessageDue(policy, pending) || CharacterDue(policy, pending)))))
            && |p.selected| <= policy.maxBatch && p.selected <= pending
            && (p.selected != [] ==> |p.selected| == policy.maxBatch || p.selected == pending)
  {
  }

  /** A batch lies wholly before the protected tail and right behind the cursor. */
  lemma SelectedFollowsCursor(ordered: seq<Event>, policy: Policy, start: nat, force: bool)
    requires policy.Valid() && start <= |ordered|
    ensures var p := PlanAt(ordered, policy, start, force);
            p.selected != [] ==>
              && start + |p.selected| + policy.protectRecent <= |ordered|
              && p.selected == ordered[start..start + |p.selected|]
              && ordered[..start] + p.selected == ordered[..start + |p.selected|]
  {
  }

  // ---- order independence ----

  predicate Increasing(log: seq<Event>) { forall i, j :: 0 <= i < j < |log| ==> log[i].sequence < log[j].sequence }

  lemma SeqOrderIsPreorder()
    ensures TotalPreorder(Earlier)
  {
  }

  lemma TailsAgree<T>(a: seq<T>, b: seq<T>)
    requires a != [] && b != [] && a[0] == b[0] && multiset(a) == multiset(b)
    ensures multiset(a[1..]) == multiset(b[1..])
  {
    assert a == [a[0]] + a[1..] && b == [b[0]] + b[1..];
    assert multiset(a[1..]) == multiset(a) - multiset{a[0]};
  }

  lemma OldestFirst(a: seq<Event>, log: seq<Event>)
    requires Sorted(a, Earlier) && Increasing(log) && a != [] && log != [] && log[0] in a && a[0] in log
    ensures a[0] == log[0]
  {
    var i :| 0 <= i < |log| && log[i] == a[0];
    var j :| 0 <= j < |a| && a[j] == log[0];
    assert j == 0 || Earlier(a[0], a[j]);
  }

  lemma {:induction false} SortedIsLog(a: seq<Event>, log: seq<Event>)
    requires Sorted(a, Earlier) && Increasing(log) && multiset(a) == multiset(log)
    ensures a == log
  {
    assert |a| == |multiset(a)| == |multiset(log)| == |log|;
    if a != [] {
      assert a[0] in multiset(log) && log[0] in multiset(a);
      OldestFirst(a, log);
      TailsAgree(a, log);
      SortedIsLog(a[1..], log[1..]);
      assert a == [a[0]] + a[1..] && log == [log[0]] + log[1..];
    }
  }

  /** However the events are listed, what is planned depends only on their sequence numbers. */
  lemma OrderedIsLog(view: seq<Event>, log: seq<Event>)
    requires Increasing(log) && multiset(view) == multiset(log)
    ensures Ordered(view) == log
  {
    SeqOrderIsPreorder();
    SortCorrect(view, Earlier);
    SortedIsLog(Ordered(view), log);
  }

  // ---- runs ----

  /** The conversation so far, the cursor, and everything handed to formation. */
  datatype State = State(log: seq<Event>, cursor: Option<string>, formed: seq<Event>)

  /** A new event arrives; or a batch is planned, with any policy, over the events in any order. */
  datatype Step = Arrive(event: Event) | Form(view: seq<Event>, policy: Policy, force: bool)

  predicate Fits(log: seq<Event>, e: Event) {
    forall x :: x in log ==> x.sequence < e.sequence && x.id != e.id && x.conversation == e.conversation
  }

  function Formed(s: State, r: Result): State {
    if r.Err? || r.plan.selected == [] then s else
      var batch := r.plan.selected;
      State(s.log, Some(batch[|batch| - 1].id), s.formed + batch)
  }

  ghost predicate Next(s: State, l: Step, s': State) {
    match l
    case Arrive(e) => Fits(s.log, e) && s' == s.(log := s.log + [e])
    case Form(view, policy, force) =>
      policy.Valid() && multiset(view) == multiset(s.log)
      && s' == Formed(s, PlanFormation(view, policy, s.cursor, force))
  }

  predicate OneConversation(log: seq<Event>) {
    forall i, j :: 0 <= i < j < |log| ==> log[i].id != log[j].id && log[i].conversation == log[j].conversation
  }

  /** Everything formed so far is the oldest part of the log, and the cursor is its end. */
  ghost predicate Inv(s: State) {
    && Increasing(s.log) && OneConversation(s.log) && s.formed <= s.log
    && s.cursor == if s.formed == [] then None else Some(s.formed[|s.formed| - 1].id)
  }

  lemma IndexOfUnique(log: seq<Event>, k: nat)
    requires OneConversation(log) && k < |log|
    ensures IndexOf(log, log[k].id, 0) == k
  {
  }

  /** The cursor once the first `done` events have been formed. */
  function CursorAt(log: seq<Event>, done: nat): Option<string>
    requires done <= |log|
  {
    if done == 0 then None else Some(log[done - 1].id)
  }

  lemma BeginAt(log: seq<Event>, done: nat)
    requires OneConversation(log) && done <= |log|
    ensures Begin(log, CursorAt(log, done)) == At(done)
  {
    if done > 0 { IndexOfUnique(log, done - 1); }
  }

  lemma PlanFrom(log: seq<Event>, policy: Policy, done: nat, force: bool)
    requires OneConversation(log) && done <= |log|
    ensures PlanOrdered(log, policy, CursorAt(log, done), force) == Ok(PlanAt(log, policy, done, force))
  {
    BeginAt(log, done);
  }

  /** On a run planning never fails, and it continues right after what has been formed. */
  lemma PlanContinues(s: State, view: seq<Event>, policy: Policy, force: bool)
    requires Inv(s) && multiset(view) == multiset(s.log)
    ensures PlanFormation(view, policy, s.cursor, force) == Ok(PlanAt(s.log, policy, |s.formed|, force))
  {
    OrderedIsLog(view, s.log);
    PlanFrom(s.log, policy, |s.formed|, force);
  }

  /** What one batch adds, and that it stays clear of the protected tail. */
  lemma BatchFollows(s: State, policy: Policy, force: bool, s': State)
    requires Inv(s) && policy.Valid() && s' == Formed(s, Ok(PlanAt(s.log, policy, |s.formed|, force)))
    ensures Inv(s') && s'.log == s.log && s.formed <= s'.formed
    ensures |s'.formed| > |s.formed| ==> |s'.formed| + policy.protectRecent <= |s.log|
  {
    SelectedFollowsCursor(s.log, policy, |s.formed|, force);
    var batch := PlanAt(s.log, policy, |s.formed|, force).selected;
    if batch != [] { BatchKeepsInv(s, batch, s'); }
  }

  lemma BatchKeepsInv(s: State, batch: seq<Event>, s': State)
    requires Inv(s) && batch != [] && s' == State(s.log, Some(batch[|batch| - 1].id), s.formed + batch)
    requires |s.formed| + |batch| <= |s.log| && s.log[..|s.formed|] + batch == s.log[..|s.formed| + |batch|]
    ensures Inv(s')
  {
    assert s.formed + batch == s.log[..|s.formed| + |batch|];
  }

  lemma StepKeepsInv(s: State, l: Step, s': State)
    requires Inv(s) && Next(s, l, s')
    ensures Inv(s')
    ensures l.Form? ==> s.log == s'.log
                        && (|s'.formed| > |s.formed| ==> |s'.formed| + l.policy.protectRecent <= |s.log|)
  {
    if l.Form? {
      PlanContinues(s, l.view, l.policy, l.force);
      BatchFollows(s, l.policy, l.force, s');
    }
  }

  /** Over every run the batches join to the oldest part of the log: nothing is skipped,
      repeated or reordered. */
  lemma ExactlyOnce(steps: seq<Step>, ss: seq<State>, n: nat)
    requires IsTrace(Next, steps, ss) && ss[0] == State([], None, []) && n <= |steps|
    ensures Inv(ss[n]) && ss[n].formed <= ss[n].log
  {
    forall s, l, s' | Inv(s) && Next(s, l, s') ensures Inv(s') { StepKeepsInv(s, l, s'); }
    Invariant(Next, Inv, steps, ss, n);
  }

  /** No event is formed while it is among the protected last ones. */
  lemma TailStaysProtected(steps: seq<Step>, ss: seq<State>, n: nat, k: nat)
    requires IsTrace(Next, steps, ss) && ss[0] == State([], None, []) && n < |steps| && steps[n].Form?
    requires |ss[n].formed| <= k < |ss[n + 1].formed|
    ensures k + steps[n].policy.protectRecent < |ss[n].log| && ss[n + 1].formed[k] == ss[n].log[k]
  {
    ExactlyOnce(steps, ss, n);
    assert Next(ss[n], steps[n], ss[n + 1]);
    StepKeepsInv(ss[n], steps[n], ss[n + 1]);
  }

  // ---- the driver ----

  function Concat(batches: seq<seq<Event>>): seq<Event> {
    if batches == [] then [] else Concat(batches[..|batches| - 1]) + batches[|batches| - 1]
  }

  lemma ConcatMore(batches: seq<seq<Event>>, batch: seq<Event>)
    ensures Concat(batches + [batch]) == Concat(batches) + batch
  {
    assert (batches + [batch])[..|batches|] == batches;
  }

  /** The batches so far are the first `done` events. */
  predicate Progress(log: seq<Event>, policy: Policy, batches: seq<seq<Event>>, done: nat) {
    done <= |log| && Concat(batches) == log[..done] && forall b :: b in batches ==> 1 <= |b| <= policy.maxBatch
  }

  /** A batch right behind the first `done` events. */
  predicate Follows(log: seq<Event>, policy: Policy, done: nat, batch: seq<Event>)
    requires done <= |log|
  {
    |batch| <= policy.maxBatch && done + |batch| <= |log| && log[..done] + batch == log[..done + |batch|]
  }

  lemma NextBatch(log: seq<Event>, policy: Policy, batches: seq<seq<Event>>, done: nat, batch: seq<Event>)
    requires Progress(log, policy, batches, done) && Follows(log, policy, done, batch) && batch != []
    ensures Progress(log, policy, batches + [batch], done + |batch|)
    ensures CursorAt(log, done + |batch|) == Some(batch[|batch| - 1].id)
  {
    ConcatMore(batches, batch);
    assert (log[..done] + batch)[done + |batch| - 1] == log[..done + |batch|][done + |batch| - 1];
  }

  /** Planning and advancing the cursor until nothing is selected ends, and the batches are the
      oldest events in order. */
  method DriveFormation(plan: Option<string> -> Result, ghost log: seq<Event>, ghost policy: Policy)
    returns (batches: seq<seq<Event>>)
    requires forall done: nat :: done <= |log| ==>
               var r := plan(CursorAt(log, done)); r.Ok? && Follows(log, policy, done, r.plan.selected)
    ensures Concat(batches) <= log && forall b :: b in batches ==> 1 <= |b| <= policy.maxBatch
    ensures plan(CursorAt(log, |Concat(batches)|)).plan.selected == []
  {
    batches := [];
    var cursor := None;
    ghost var done: nat := 0;
    assert CursorAt(log, 0) == None;
    var selected := plan(cursor).plan.selected;
    while selected != []
      invariant Progress(log, policy, batches, done) && cursor == CursorAt(log, done)
      invariant selected == plan(cursor).plan.selected
      decreases |log| - done
    {
      NextBatch(log, policy, batches, done, selected);
      batches := batches + [selected];
      cursor := Some(selected[|selected| - 1].id);
      done := done + |selected|;
      assert cursor == CursorAt(log, done);
      selected := plan(cursor).plan.selected;
    }
  }

  lemma PlansFollow(log: seq<Event>, policy: Policy, done: nat)
    requires policy.Valid() && OneConversation(log) && done <= |log|
    ensures PlanOrdered(log, policy, CursorAt(log, done), false) == Ok(PlanAt(log, policy, done, false))
    ensures Follows(log, policy, done, PlanAt(log, policy, done, false).selected)
  {
    PlanFrom(log, policy, done, false);
    DueExactly(log, policy, done, false);
    SelectedFollowsCursor(log, policy, done, false);
  }

  /** The driver over the ordered log. */
  method OrderedSessions(log: seq<Event>, policy: Policy) returns (refusal: Option<Refusal>, batches: seq<seq<Event>>)
    requires policy.Valid()
    ensures refusal.None? <==> OneConversation(log)
    ensures refusal.None? ==> Concat(batches) <= log && forall b :: b in batches ==> 1 <= |b| <= policy.maxBatch
    ensures refusal.None? ==> PlanAt(log, policy, |Concat(batches)|, false).selected == []
  {
    var first := PlanOrdered(log, policy, None, false);
    if first.Err? { return Some(first.refusal), []; }
    forall done: nat | done <= |log|
      ensures PlanOrdered(log, policy, CursorAt(log, done), false) == Ok(PlanAt(log, policy, done, false))
      ensures Follows(log, policy, done, PlanAt(log, policy, done, false).selected)
    {
      PlansFollow(log, policy, done);
    }
    batches := DriveFormation(cursor => PlanOrdered(log, policy, cursor, false), log, policy);
    return None, batches;
  }

  /** The driver stops with all events formed but those that reach no threshold. */
  method FormationSessions(events: seq<Event>, policy: Policy)
    returns (refusal: Option<Refusal>, batches: seq<seq<Event>>)
    requires policy.Valid()
    ensures refusal.None? <==> OneConversation(Ordered(events))
    ensures refusal.None? ==> Concat(batches) <= Ordered(events) && forall b :: b in batches ==>
                                                                      1 <= |b| <= policy.maxBatch
    ensures refusal.None? ==> PlanAt(Ordered(events), policy, |Concat(batches)|, false).selected == []
  {
    refusal, batches := OrderedSessions(Ordered(events), policy);
  }
}
