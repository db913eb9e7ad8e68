/** Which events a formation plan takes, why, and which input it refuses. */
module FormationOutcomes {
  import opened CanonicalJson
  import opened Ordering
  import opened Formation

  /** The same events by their sequence numbers. */
  ghost predicate InSequence(events: seq<Event>, ordered: seq<Event>) {
    multiset(ordered) == multiset(events)
    && forall i, j :: 0 <= i < j < |ordered| ==> ordered[i].sequence <= ordered[j].sequence
  }

  ghost predicate Mixed(events: seq<Event>) {
    exists e, f :: e in events && f in events && e.conversation != f.conversation
  }

  ghost predicate Repeated(events: seq<Event>) {
    exists i, j :: 0 <= i < j < |events| && events[i].id == events[j].id
  }

  /** Planning starts behind the event that the cursor names. */
  ghost predicate StartsBehind(ordered: seq<Event>, after: Option<string>, start: nat) {
    match after
    case None => start == 0
    case Some(id) =>
      1 <= start <= |ordered| && ordered[start - 1].id == id && forall k :: 0 <= k < start - 1 ==> ordered[k].id != id
  }

  ghost function AllText(events: seq<Event>): string {
    if events == [] then "" else events[0].content + AllText(events[1..])
  }

  /** What lies between the cursor and the protected last events. */
  ghost predicate IsPending(ordered: seq<Event>, policy: Policy, start: nat, pending: seq<Event>) {
    if start + policy.protectRecent < |ordered|
    then |pending| == |ordered| - policy.protectRecent - start
         && forall i :: 0 <= i < |pending| ==> pending[i] == ordered[start + i]
    else pending == []
  }

  ghost predicate EnoughMessages(policy: Policy, pending: seq<Event>) {
    policy.messageInterval > 0 && |pending| >= policy.messageInterval
  }

  ghost predicate EnoughText(policy: Policy, pending: seq<Event>) {
    policy.characterInterval > 0 && |AllText(pending)| >= policy.characterInterval
  }

  ghost predicate Due(policy: Policy, pending: seq<Event>, force: bool) {
    pending != []
    && (force || (policy.mode != Manual && (EnoughMessages(policy, pending) || EnoughText(policy, pending))))
  }

  /** The oldest pending events up to a batch if a batch is due, and the reason. */
  ghost predicate Chooses(policy: Policy, pending: seq<Event>, force: bool, p: Plan) {
    var waits := pending != [] && policy.mode == Manual && !force;
    var judged := pending != [] && !force && !waits;
    var messages, text := EnoughMessages(policy, pending), EnoughText(policy, pending);
    && p.pendingMessages == |pending| && p.pendingCharacters == |AllText(pending)|
    && p.selected == (if Due(policy, pending, force) then FirstOf(pending, policy.maxBatch) else [])
    && (p.reason == NoEligibleMessages <==> pending == [])
    && (p.reason == ManualTriggerRequired <==> waits)
    && (p.reason == Forced <==> pending != [] && force)
    && (p.reason == BothThresholds <==> judged && messages && text)
    && (p.reason == MessageThreshold <==> judged && messages && !text)
    && (p.reason == CharacterThreshold <==> judged && !messages && text)
    && (p.reason == ThresholdNotReached <==> judged && !messages && !text)
  }

  lemma {:induction false} TextExactly(events: seq<Event>)
    ensures Characters(events) == |AllText(events)|
  {
    if events != [] { TextExactly(events[1..]); }
  }

  lemma PlanAtExactly(ordered: seq<Event>, policy: Policy, start: nat, force: bool)
    ensures var p, pending := PlanAt(ordered, policy, start, force), Pending(ordered, policy, start);
            && IsPending(ordered, policy, start, pending) && Chooses(policy, pending, force, p)
            && p.protectedTail == ordered[if policy.protectRecent < |ordered| then |ordered| - policy.protectRecent
                                          else 0..]
  {
    TextExactly(Pending(ordered, policy, start));
  }

  lemma MixedExactly(events: seq<Event>, ordered: seq<Event>)
    requires multiset(ordered) == multiset(events)
    ensures Mixed(events) <==>
            exists i, j :: 0 <= i < j < |ordered| && ordered[i].conversation != ordered[j].conversation
  {
    forall e ensures e in events <==> e in ordered {
      assert e in events <==> e in multiset(events);
      assert e in ordered <==> e in multiset(ordered);
    }
    if Mixed(events) {
      var e, f :| e in events && f in events && e.conversation != f.conversation;
      var i :| 0 <= i < |ordered| && ordered[i] == e;
      var j :| 0 <= j < |ordered| && ordered[j] == f;
      if i > j { assert ordered[j].conversation != ordered[i].conversation; }
    }
  }

  /** What the plan is for any events in any order: the refusals in the order in which they are checked, or the batch
      behind the cursor. */
  lemma PlansExactly(events: seq<Event>, policy: Policy, after: Option<string>, force: bool)
    returns (ordered: seq<Event>, start: nat, pending: seq<Event>)
    ensures InSequence(events, ordered)
    ensures var r := PlanFormation(events, policy, after, force);
            var missing := after.Some? && forall e :: e in events ==> e.id != after.value;
            && (r == Err(SeveralConversations) <==> Mixed(events))
            && (r == Err(DuplicateIds) <==> !Mixed(events) && Repeated(ordered))
            && (r == Err(CursorMissing) <==> !Mixed(events) && !Repeated(ordered) && missing)
            && (r.Ok? ==>
                  && StartsBehind(ordered, after, start) && IsPending(ordered, policy, start, pending)
                  && Chooses(policy, pending, force, r.plan)
                  && r.plan.protectedTail == ordered[if policy.protectRecent < |ordered|
                                                     then |ordered| - policy.protectRecent else 0..])
  {
    ordered := Ordered(events);
    SeqOrderIsPreorder();
    SortCorrect(events, Earlier);
    SortElements(events, Earlier);
    MixedExactly(events, ordered);
    start, pending := 0, [];
    match Begin(ordered, after) {
      case Refused(_) =>
      case At(at) =>
        start, pending := at, Pending(ordered, policy, at);
        PlanAtExactly(ordered, policy, start, force);
    }
    BeginExactly(events, ordered, after);
  }

  lemma BeginExactly(events: seq<Event>, ordered: seq<Event>, after: Option<string>)
    requires forall e :: e in events <==> e in ordered
    ensures var several := exists i, j :: 0 <= i < j < |ordered| && ordered[i].conversation != ordered[j].conversation;
            var missing := after.Some? && forall e :: e in events ==> e.id != after.value;
            && (Begin(ordered, after) == Refused(SeveralConversations) <==> several)
            && (Begin(ordered, after) == Refused(DuplicateIds) <==> !several && Repeated(ordered))
            && (Begin(ordered, after) == Refused(CursorMissing) <==> !several && !Repeated(ordered) && missing)
            && (Begin(ordered, after).At? ==> StartsBehind(ordered, after, Begin(ordered, after).start))
  {
    if after.Some? {
      var at := IndexOf(ordered, after.value, 0);
      if at < |ordered| { assert ordered[at] in events; } else {
        forall e | e in events ensures e.id != after.value {
          var k :| 0 <= k < |ordered| && ordered[k] == e;
        }
      }
    }
  }

  /** The driver stops where nothing more is due. */
  lemma StopsExactly(ordered: seq<Event>, policy: Policy, done: nat) returns (pending: seq<Event>)
    requires policy.Valid() && PlanAt(ordered, policy, done, false).selected == []
    ensures IsPending(ordered, policy, done, pending) && !Due(policy, pending, false)
  {
    pending := Pending(ordered, policy, done);
    PlanAtExactly(ordered, policy, done, false);
  }
}
