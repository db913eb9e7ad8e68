/** What retention planning guarantees: the exact decision, one admitted step, and whole runs
    in which a host applies only admitted plans. */
module RetentionRuns {
  import opened Ordering
  import opened CanonicalJson
  import opened Text
  import opened Continuity
  import opened Traces

  function Retained(active: seq<Memory>, d: Decision): seq<Memory> {
    Select(active, (r: Memory) => r.id !in d.retire)
  }

  /** The host's atomic step: retire what the plan names and admit the incoming record. */
  function AfterPlan(active: seq<Memory>, incoming: Memory, d: Decision): seq<Memory> {
    Retained(active, d) + [incoming]
  }

  // ---- the exact decision ----

  ghost predicate ShortestFit(active: seq<Memory>, cs: seq<Memory>, k: nat, incoming: Memory, policy: Policy) {
    var count, chars := |Valid(active)|, Total(Valid(active));
    k <= |cs| && FitsAfter(count, chars, cs, k, incoming, policy)
    && forall j :: 0 <= j < k ==> !FitsAfter(count, chars, cs, j, incoming, policy)
  }

  ghost predicate NothingFits(active: seq<Memory>, cs: seq<Memory>, incoming: Memory, policy: Policy) {
    forall k :: 0 <= k <= |cs| ==> !FitsAfter(|Valid(active)|, Total(Valid(active)), cs, k, incoming, policy)
  }

  lemma {:induction false} NoEpisodicYet(xs: seq<Memory>, n: nat)
    requires n <= |xs|
    ensures SelectUpTo(xs, IsEpisodic, n) == [] <==> forall i :: 0 <= i < n ==> !xs[i].retention.Episodic?
  {
    if n > 0 { NoEpisodicYet(xs, n - 1); }
  }

  /** When the plan admits, when it gives up and when it asks for compaction. */
  lemma DecisionExact(active: seq<Memory>, incoming: Memory, policy: Policy, utility: Memory -> real)
    ensures var d, cs := Decide(active, incoming, policy, utility), Candidates(active, policy, utility);
            var episodics := |Select(cs, IsEpisodic)|;
            && (d.admit <==> exists k :: ShortestFit(active, cs, k, incoming, policy)
                                      && forall i :: 0 <= i < k ==> !cs[i].retention.Episodic?)
            && (d.reason == ProtectedCapacityExhausted <==>
                  NothingFits(active, cs, incoming, policy)
                  || exists k, i :: ShortestFit(active, cs, k, incoming, policy) && 0 <= i < k
                                    && cs[i].retention.Episodic?
                                 && episodics < Minimum(active, policy))
            && (d.reason == CheckpointCompactionRequired <==>
                  exists k, i :: ShortestFit(active, cs, k, incoming, policy) && 0 <= i < k && cs[i].retention.Episodic?
                              && episodics >= Minimum(active, policy))
  {
    var cs := Candidates(active, policy, utility);
    var fit := FirstFit(|Valid(active)|, Total(Valid(active)), cs, 0, incoming, policy);
    if fit.Some? {
      var k := fit.value;
      NoEpisodicYet(cs, k);
      assert ShortestFit(active, cs, k, incoming, policy);
      assert forall k' :: ShortestFit(active, cs, k', incoming, policy) ==> k' == k;
    }
  }

  /** The size of the prefix that an admitting plan retires. */
  lemma AdmitPrefix(active: seq<Memory>, incoming: Memory, policy: Policy, utility: Memory -> real) returns (k: nat)
    requires Decide(active, incoming, policy, utility).admit
    ensures var d, cs := Decide(active, incoming, policy, utility), Candidates(active, policy, utility);
            && ShortestFit(active, cs, k, incoming, policy)
            && d.retire == InvalidIds(active) + Ids(cs[..k])
            && (forall i :: 0 <= i < k ==> !cs[i].retention.Episodic?)
            && d.projectedRecords == |Valid(active)| - k + 1
            && d.projectedChars == Total(Valid(active)) - Sum(cs, k) + incoming.Chars()
  {
    var cs := Candidates(active, policy, utility);
    k := FirstFit(|Valid(active)|, Total(Valid(active)), cs, 0, incoming, policy).value;
    NoEpisodicYet(cs, k);
  }

  lemma PrefixIds(active: seq<Memory>, policy: Policy, utility: Memory -> real, k: nat, r: Memory)
    requires UniqueIds(active) && r in active
    requires k <= |Candidates(active, policy, utility)|
    ensures var cs := Candidates(active, policy, utility);
            r.id in InvalidIds(active) + Ids(cs[..k]) <==> !r.sourceValid || r in cs[..k]
  {
    var cs := Candidates(active, policy, utility);
    CandidateFacts(active, policy, utility);
    if r.id in InvalidIds(active) {
      var q :| q in active && !q.sourceValid && q.id == r.id;
      SameRecord(active, q, r);
    }
    if r.id in Ids(cs[..k]) {
      var i :| 0 <= i < k && cs[i].id == r.id;
      assert cs[i] in cs;
      SameRecord(active, cs[i], r);
      assert cs[..k][i] == r;
    }
    if r in cs[..k] {
      var i :| 0 <= i < k && cs[..k][i] == r;
      assert Ids(cs[..k])[i] == r.id;
    }
  }

  /** An admitting plan retires the invalid records and the shortest fitting prefix of the candidates, and
      no one else. */
  lemma RetiresExactly(active: seq<Memory>, incoming: Memory, policy: Policy, utility: Memory -> real, r: Memory)
    returns (k: nat)
    requires UniqueIds(active) && r in active && Decide(active, incoming, policy, utility).admit
    ensures var cs := Candidates(active, policy, utility);
            && ShortestFit(active, cs, k, incoming, policy)
            && (r.id in Decide(active, incoming, policy, utility).retire <==> !r.sourceValid || r in cs[..k])
  {
    k := AdmitPrefix(active, incoming, policy, utility);
    PrefixIds(active, policy, utility, k, r);
  }

  lemma SameRecord(active: seq<Memory>, q: Memory, r: Memory)
    requires UniqueIds(active) && q in active && r in active && q.id == r.id
    ensures q == r
  {
    var i :| 0 <= i < |active| && active[i] == q;
    var j :| 0 <= j < |active| && active[j] == r;
    assert i == j;
  }

  lemma RetainedFacts(active: seq<Memory>, d: Decision)
    requires UniqueIds(active)
    ensures Distinct(Retained(active, d)) && UniqueIds(Retained(active, d))
    ensures forall r :: r in Retained(active, d) <==> r in active && r.id !in d.retire
  {
    var keep := (r: Memory) => r.id !in d.retire;
    assert Distinct(active);
    SelectDistinct(active, keep, |active|);
    InSelect(active, keep);
    UniqueWithin(Retained(active, d), active);
  }

  // ---- one admitted step ----

  lemma SetOfAll(xs: seq<Memory>)
    ensures forall r :: r in SetUpTo(xs, |xs|) <==> r in xs
  {
  }

  lemma SetOfPrefix(xs: seq<Memory>, k: nat)
    requires k <= |xs|
    ensures forall r :: r in SetUpTo(xs, k) <==> r in xs[..k]
  {
    forall r | r in xs[..k] ensures r in SetUpTo(xs, k) {
      var i :| 0 <= i < k && xs[..k][i] == r;
      assert xs[i] == r;
    }
  }

  /** An admitted step ends exactly where the plan projected, within both capacities. */
  lemma AdmittedFits(active: seq<Memory>, incoming: Memory, policy: Policy, utility: Memory -> real)
    requires UniqueIds(active) && incoming.id !in IdSet(active)
    requires Decide(active, incoming, policy, utility).admit
    ensures var d := Decide(active, incoming, policy, utility);
            var after := AfterPlan(active, incoming, d);
            && |after| == d.projectedRecords <= policy.maxRecords
            && Total(after) == d.projectedChars <= policy.maxChars
            && UniqueIds(after)
  {
    var d, cs, valid := Decide(active, incoming, policy, utility), Candidates(active, policy, utility), Valid(active);
    var k := AdmitPrefix(active, incoming, policy, utility);
    var kept := Retained(active, d);
    CandidateFacts(active, policy, utility);
    ValidFacts(active);
    RetainedFacts(active, d);
    KeptIsRest(active, incoming, policy, utility, k);
    RestTotals(kept, valid, cs, k);
    AppendTotal(kept, incoming);
    StillUnique(kept, incoming, active);
  }

  lemma RestTotals(kept: seq<Memory>, valid: seq<Memory>, cs: seq<Memory>, k: nat)
    requires Distinct(kept) && Distinct(valid) && Distinct(cs) && k <= |cs|
    requires SetUpTo(cs, k) <= SetUpTo(valid, |valid|)
    requires SetUpTo(kept, |kept|) == SetUpTo(valid, |valid|) - SetUpTo(cs, k)
    ensures |kept| == |valid| - k && Total(kept) == Total(valid) - Sum(cs, k)
  {
    SumIsWeight(kept, |kept|);
    SumIsWeight(valid, |valid|);
    SumIsWeight(cs, k);
    WeightMinus(SetUpTo(valid, |valid|), SetUpTo(cs, k));
  }

  lemma StillUnique(kept: seq<Memory>, incoming: Memory, active: seq<Memory>)
    requires UniqueIds(kept) && incoming.id !in IdSet(active) && forall r :: r in kept ==> r in active
    ensures UniqueIds(kept + [incoming])
  {
    forall i | 0 <= i < |kept| ensures kept[i].id != incoming.id { assert kept[i] in active; }
  }

  lemma {:induction false} SumPrefix(xs: seq<Memory>, ys: seq<Memory>, n: nat)
    requires n <= |xs| && xs <= ys
    ensures Sum(xs, n) == Sum(ys, n)
  {
    if n > 0 { SumPrefix(xs, ys, n - 1); }
  }

  lemma AppendTotal(xs: seq<Memory>, x: Memory)
    ensures Total(xs + [x]) == Total(xs) + x.Chars()
  {
    SumPrefix(xs, xs + [x], |xs|);
  }

  lemma KeptIsRest(active: seq<Memory>, incoming: Memory, policy: Policy, utility: Memory -> real, k: nat)
    requires UniqueIds(active) && k <= |Candidates(active, policy, utility)|
    requires Decide(active, incoming, policy, utility).retire ==
               InvalidIds(active) + Ids(Candidates(active, policy, utility)[..k])
    ensures var kept := Retained(active, Decide(active, incoming, policy, utility));
            var cs, valid := Candidates(active, policy, utility), Valid(active);
            && SetUpTo(cs, k) <= SetUpTo(valid, |valid|)
            && SetUpTo(kept, |kept|) == SetUpTo(valid, |valid|) - SetUpTo(cs, k)
  {
    var d, cs, valid := Decide(active, incoming, policy, utility), Candidates(active, policy, utility), Valid(active);
    var kept := Retained(active, d);
    CandidateFacts(active, policy, utility);
    ValidFacts(active);
    RetainedFacts(active, d);
    SetOfAll(kept);
    SetOfAll(valid);
    SetOfPrefix(cs, k);
    forall r | r in SetUpTo(cs, k) ensures r in SetUpTo(valid, |valid|) {
      assert r in cs;
    }
    forall r ensures r in SetUpTo(kept, |kept|) <==> r in SetUpTo(valid, |valid|) - SetUpTo(cs, k) {
      if r in active { PrefixIds(active, policy, utility, k, r); }
    }
  }

  /** A valid record leaves only as an unprotected, non-episodic one. */
  lemma WhoLeaves(active: seq<Memory>, incoming: Memory, policy: Policy, utility: Memory -> real, r: Memory)
    requires UniqueIds(active) && r in active
    requires Decide(active, incoming, policy, utility).admit
    ensures var after := AfterPlan(active, incoming, Decide(active, incoming, policy, utility));
            r !in after ==> !r.sourceValid || (!Protected(active, policy, r) && !r.retention.Episodic?)
  {
    var k := AdmitPrefix(active, incoming, policy, utility);
    PrefixIds(active, policy, utility, k, r);
    RetainedFacts(active, Decide(active, incoming, policy, utility));
    CandidateFacts(active, policy, utility);
    var cs := Candidates(active, policy, utility);
    if r in cs[..k] {
      var i :| 0 <= i < k && cs[..k][i] == r;
      assert r in cs;
    }
  }

  lemma {:induction false} BestHolder(active: seq<Memory>, anchor: string, n: nat) returns (best: Memory)
    requires n <= |active| && exists i :: 0 <= i < n && Holds(active[i], anchor)
    ensures best in active && Holds(best, anchor)
    ensures forall i :: 0 <= i < n && Holds(active[i], anchor) ==> Preferred(active[i], best)
  {
    var last := active[n - 1];
    PreferredIsTotal(last, last);
    if exists i :: 0 <= i < n - 1 && Holds(active[i], anchor) {
      best := BestHolder(active, anchor, n - 1);
      PreferredIsTotal(last, best);
      if Holds(last, anchor) && !Preferred(last, best) {
        forall i | 0 <= i < n - 1 && Holds(active[i], anchor) ensures Preferred(active[i], last) {
          PreferredTransitive(active[i], best, last);
        }
        best := last;
      }
    } else {
      best := last;
    }
  }

  /** Under anchor coverage every identity anchor keeps a holder, whatever the other flags. */
  lemma AnchorsStayCovered(active: seq<Memory>, incoming: Memory, policy: Policy, utility: Memory -> real, r: Memory)
    requires UniqueIds(active) && policy.preserveAnchors && r in active && Holds(r, r.anchor)
    requires Decide(active, incoming, policy, utility).admit
    ensures exists q :: q in AfterPlan(active, incoming, Decide(active, incoming, policy, utility))
                        && Holds(q, r.anchor)
  {
    var after := AfterPlan(active, incoming, Decide(active, incoming, policy, utility));
    var keeper: Memory;
    if exists q :: q in active && Holds(q, r.anchor) && Guarded(q, policy) {
      keeper :| keeper in active && Holds(keeper, r.anchor) && Guarded(keeper, policy);
    } else {
      var i :| 0 <= i < |active| && active[i] == r;
      keeper := BestHolder(active, r.anchor, |active|);
      assert Survivor(active, policy, keeper);
    }
    WhoLeaves(active, incoming, policy, utility, keeper);
    assert keeper in after;
  }

  /** A refusal changes nothing, and asks to compact between one and a batch of distinct,
      unprotected, valid episodic records, or none. */
  lemma RefusalsAreSafe(active: seq<Memory>, incoming: Memory, policy: Policy, utility: Memory -> real)
    requires UniqueIds(active) && policy.Valid() && !Decide(active, incoming, policy, utility).admit
    ensures var d := Decide(active, incoming, policy, utility);
            && d.retire == [] && d.projectedRecords == |active| && d.projectedChars == Total(active)
            && Distinct(d.compact) && |d.compact| <= policy.batch
            && (d.reason == CheckpointCompactionRequired <==> d.compact != [])
            && forall id :: id in d.compact ==>
                 exists r :: r in active && r.id == id && r.sourceValid && r.retention.Episodic?
                             && !Protected(active, policy, r)
  {
    var d, cs := Decide(active, incoming, policy, utility), Candidates(active, policy, utility);
    CandidateFacts(active, policy, utility);
    EpisodicUnique(cs);
    CompactionsAreEpisodic(active, policy, cs, Select(cs, IsEpisodic), d.compact);
  }

  lemma CompactionsAreEpisodic(active: seq<Memory>, policy: Policy, cs: seq<Memory>, all: seq<Memory>,
                               compact: seq<string>)
    requires forall r :: r in cs <==> r in active && r.sourceValid && !Protected(active, policy, r)
    requires all == Select(cs, IsEpisodic) && UniqueIds(all) && compact <= Ids(all)
    ensures Distinct(compact)
    ensures forall id :: id in compact ==>
              exists r :: r in active && r.id == id && r.sourceValid && r.retention.Episodic?
                          && !Protected(active, policy, r)
  {
    InSelect(cs, IsEpisodic);
    forall id | id in compact
      ensures exists r :: r in active && r.id == id && r.sourceValid && r.retention.Episodic?
                          && !Protected(active, policy, r)
    {
      var i :| 0 <= i < |compact| && compact[i] == id;
      assert all[i].id == id && all[i] in all;
    }
  }

  // ---- runs ----

  datatype Step =
    | Offer(incoming: Memory, now: int, utility: Memory -> real)
    | Change                    // sources edited or deleted, memories used: fields move, records stay
    | Withdraw(id: string)      // the user's own request

  /** What the environment may not change about a record. */
  predicate SameIdentity(a: Memory, b: Memory) {
    a.id == b.id && a.text == b.text && a.retention == b.retention && a.pinned == b.pinned && a.anchor == b.anchor
    && a.active == b.active
  }

  function Other(id: string): Memory -> bool { (r: Memory) => r.id != id }

  ghost predicate Next(policy: Policy, s: seq<Memory>, step: Step, s': seq<Memory>) {
    match step
    case Offer(incoming, now, utility) =>
      s' == (match PlanOf(s, incoming, policy, now, utility)
             case Planned(d) => if d.admit then AfterPlan(s, incoming, d) else s
             case _ => s)
    case Change => |s'| == |s| && forall i :: 0 <= i < |s| ==> SameIdentity(s[i], s'[i])
    case Withdraw(id) => s' == Select(s, Other(id))
  }

  /** All records active, identifiers unique, both capacities kept. */
  ghost predicate Within(policy: Policy, s: seq<Memory>) {
    && (forall i :: 0 <= i < |s| ==> s[i].active) && UniqueIds(s)
    && |s| <= policy.maxRecords && Total(s) <= policy.maxChars
  }

  lemma {:induction false} AllActive(s: seq<Memory>, n: nat)
    requires n <= |s| && forall i :: 0 <= i < |s| ==> s[i].active
    ensures SelectUpTo(s, IsActive, n) == s[..n]
  {
    if n > 0 {
      AllActive(s, n - 1);
      assert s[..n] == s[..n - 1] + [s[n - 1]];
    }
  }

  lemma ActiveIsAll(s: seq<Memory>)
    requires forall i :: 0 <= i < |s| ==> s[i].active
    ensures Active(s) == s
  {
    AllActive(s, |s|);
    assert s[..|s|] == s;
  }

  lemma {:induction false} SameSizes(s: seq<Memory>, s': seq<Memory>, n: nat)
    requires n <= |s| == |s'| && forall i :: 0 <= i < |s| ==> SameIdentity(s[i], s'[i])
    ensures Sum(s, n) == Sum(s', n)
  {
    if n > 0 { SameSizes(s, s', n - 1); }
  }

  lemma {:induction false} SelectShrinks(s: seq<Memory>, keep: Memory -> bool, n: nat)
    requires n <= |s|
    ensures Total(SelectUpTo(s, keep, n)) <= Sum(s, n)
  {
    if n > 0 {
      SelectShrinks(s, keep, n - 1);
      var t := SelectUpTo(s, keep, n - 1);
      if keep(s[n - 1]) { AppendTotal(t, s[n - 1]); } else { assert t + [] == t; }
    }
  }

  lemma PlannedDecision(s: seq<Memory>, incoming: Memory, policy: Policy, now: int, utility: Memory -> real)
    requires (forall i :: 0 <= i < |s| ==> s[i].active) && PlanOf(s, incoming, policy, now, utility).Planned?
    requires PlanOf(s, incoming, policy, now, utility).decision.admit
    ensures PlanOf(s, incoming, policy, now, utility).decision == Decide(s, incoming, policy, utility)
    ensures incoming.active && incoming.id !in IdSet(s) && UniqueIds(s)
  {
    ActiveIsAll(s);
    CountedIdsAreUnique(s);
  }

  lemma StepKeepsWithin(policy: Policy, s: seq<Memory>, step: Step, s': seq<Memory>)
    requires Within(policy, s) && Next(policy, s, step, s')
    ensures Within(policy, s')
  {
    match step {
      case Offer(incoming, now, utility) =>
        var plan := PlanOf(s, incoming, policy, now, utility);
        if plan.Planned? && plan.decision.admit {
          PlannedDecision(s, incoming, policy, now, utility);
          AdmittedFits(s, incoming, policy, utility);
          RetainedFacts(s, plan.decision);
          forall i | 0 <= i < |s'| ensures s'[i].active {
            if i < |Retained(s, plan.decision)| { assert s'[i] in s; }
          }
        }
      case Change => SameSizes(s, s', |s|);
      case Withdraw(id) => WithdrawKeepsWithin(policy, s, id);
    }
  }

  lemma WithdrawKeepsWithin(policy: Policy, s: seq<Memory>, id: string)
    requires Within(policy, s)
    ensures Within(policy, Select(s, Other(id)))
  {
    var s' := Select(s, Other(id));
    SelectShrinks(s, Other(id), |s|);
    assert Distinct(s);
    SelectDistinct(s, Other(id), |s|);
    InSelect(s, Other(id));
    UniqueWithin(s', s);
    forall i | 0 <= i < |s'| ensures s'[i].active { assert s'[i] in s; }
  }

  ghost function Steps(policy: Policy): (seq<Memory>, Step, seq<Memory>) -> bool {
    (s: seq<Memory>, step: Step, s': seq<Memory>) => Next(policy, s, step, s')
  }

  lemma WithinPreserved(policy: Policy)
    ensures Preserved(Steps(policy), (s: seq<Memory>) => Within(policy, s))
  {
    forall s, step, s' | Within(policy, s) && Next(policy, s, step, s') ensures Within(policy, s') {
      StepKeepsWithin(policy, s, step, s');
    }
  }

  /** In every run the active set stays within both capacities. */
  lemma AlwaysWithin(policy: Policy, steps: seq<Step>, ss: seq<seq<Memory>>, n: nat)
    requires IsTrace(Steps(policy), steps, ss) && ss[0] == [] && n <= |steps|
    ensures Within(policy, ss[n])
  {
    EmptyIsWithin(policy);
    WithinPreserved(policy);
    Invariant(Steps(policy), (s: seq<Memory>) => Within(policy, s), steps, ss, n);
  }

  lemma EmptyIsWithin(policy: Policy)
    ensures Within(policy, [])
  {
    assert UniqueIds([]) && Total([]) == 0;
  }

  /** A record that the policy's flags protect, in its present form. */
  ghost predicate Keeps(policy: Policy, s: seq<Memory>, id: string) {
    exists r :: r in s && r.id == id && Guarded(r, policy)
  }

  /** Its source is intact: whatever record has this identifier is valid. */
  ghost predicate Intact(s: seq<Memory>, id: string) { forall r :: r in s && r.id == id ==> r.sourceValid }

  lemma StepKeepsGuarded(policy: Policy, s: seq<Memory>, step: Step, s': seq<Memory>, id: string)
    requires Within(policy, s) && Next(policy, s, step, s') && Keeps(policy, s, id)
    requires Intact(s', id) && step != Withdraw(id)
    ensures Keeps(policy, s', id)
  {
    var r :| r in s && r.id == id && Guarded(r, policy);
    match step {
      case Offer(incoming, now, utility) =>
        var plan := PlanOf(s, incoming, policy, now, utility);
        if plan.Planned? && plan.decision.admit {
          PlannedDecision(s, incoming, policy, now, utility);
          WhoLeaves(s, incoming, policy, utility, r);
        }
      case Change =>
        var i :| 0 <= i < |s| && s[i] == r;
        assert s'[i] in s' && SameIdentity(s[i], s'[i]);
      case Withdraw(other) =>
        InSelect(s, Other(other));
    }
  }

  /** Between two moments nothing makes the record's source invalid, and its user does not withdraw it. */
  ghost predicate Spared(steps: seq<Step>, ss: seq<seq<Memory>>, i: nat, j: nat, id: string)
    requires i <= j < |ss| == |steps| + 1
  {
    forall m {:trigger steps[m]} :: i <= m < j ==> Intact(ss[m + 1], id) && steps[m] != Withdraw(id)
  }

  /** No silent forgetting: over any stretch of a run, a core, durable or pinned record that the
      policy protects is still there at the end, unless its source became invalid or its user
      withdrew it on the way. */
  lemma NoSilentForgetting(policy: Policy, steps: seq<Step>, ss: seq<seq<Memory>>, i: nat, j: nat, id: string)
    requires IsTrace(Steps(policy), steps, ss) && ss[0] == [] && i <= j <= |steps|
    requires Keeps(policy, ss[i], id)
    requires Spared(steps, ss, i, j, id)
    ensures Keeps(policy, ss[j], id)
  {
    EmptyIsWithin(policy);
    WithinPreserved(policy);
    var inv, keeps := (s: seq<Memory>) => Within(policy, s), (s: seq<Memory>) => Keeps(policy, s, id);
    var permitted := (step: Step, s: seq<Memory>) => Intact(s, id) && step != Withdraw(id);
    forall s, step, s' | inv(s) && keeps(s) && Next(policy, s, step, s') && permitted(step, s') ensures keeps(s') {
      StepKeepsGuarded(policy, s, step, s', id);
    }
    Lasts(Steps(policy), inv, keeps, permitted, steps, ss, i, j);
  }

  predicate Lasting(r: Memory) { r.sourceValid && (r.retention.Core? || r.retention.Durable? || r.pinned) }

  /** With the default policy that is every core, durable or pinned record. */
  lemma DefaultProtects(r: Memory)
    ensures Guarded(r, DEFAULT_POLICY) <==> Lasting(r)
  {
  }

  /** Under the default policy no core, durable or pinned record is ever forgotten silently. */
  lemma NothingForgottenByDefault(steps: seq<Step>, ss: seq<seq<Memory>>, i: nat, j: nat, r: Memory)
    requires IsTrace(Steps(DEFAULT_POLICY), steps, ss) && ss[0] == [] && i <= j <= |steps|
    requires r in ss[i] && Lasting(r)
    requires Spared(steps, ss, i, j, r.id)
    ensures exists q :: q in ss[j] && q.id == r.id && Lasting(q)
  {
    DefaultProtects(r);
    assert Keeps(DEFAULT_POLICY, ss[i], r.id);
    NoSilentForgetting(DEFAULT_POLICY, steps, ss, i, j, r.id);
    var q :| q in ss[j] && q.id == r.id && Guarded(q, DEFAULT_POLICY);
    DefaultProtects(q);
  }
}
