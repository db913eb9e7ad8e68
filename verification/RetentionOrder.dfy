/** Who leaves: the plan spelt out over sets of records, without the planner's own sorting and searching. */
module RetentionOrder {
  import opened Ordering
  import opened CanonicalJson
  import opened Text
  import opened Continuity
  import RetentionRuns

  // ---- who may not leave ----

  /** What the policy's flags keep. */
  predicate Flagged(r: Memory, policy: Policy) {
    && r.sourceValid
    && ((policy.protectCore && r.retention == Core) || (policy.protectDurable && r.retention == Durable)
        || (policy.protectPinned && r.pinned))
  }

  predicate Anchors(r: Memory, anchor: string) {
    r.sourceValid && NotBlank(anchor) && r.anchor == anchor && r.retention in {Durable, Core}
  }

  /** Of two holders of one anchor: the core one before the durable one, then the more important, the surer, the
      later used and the later recorded one, and at last the one with the later identifier. */
  predicate Outranks(r: Memory, q: Memory) {
    || (r.retention == Core && q.retention == Durable)
    || (r.retention == q.retention && r.importance > q.importance)
    || (r.retention == q.retention && r.importance == q.importance && r.confidence > q.confidence)
    || (r.retention == q.retention && r.importance == q.importance && r.confidence == q.confidence
        && (r.lastUsedAt > q.lastUsedAt
            || (r.lastUsedAt == q.lastUsedAt
                && (r.recordedAt > q.recordedAt
                    || (r.recordedAt == q.recordedAt && r.id != q.id && Precedes(q.id, r.id))))))
  }

  /** The flags keep it, or it alone stands for its anchor. */
  predicate Stays(active: seq<Memory>, policy: Policy, r: Memory) {
    && r in active
    && (|| Flagged(r, policy)
        || (policy.preserveAnchors && Anchors(r, r.anchor)
            && forall q :: q in active && q != r && Anchors(q, r.anchor) ==> !Flagged(q, policy) && Outranks(r, q)))
  }

  lemma OutranksExactly(r: Memory, q: Memory)
    requires r.id != q.id && r.retention in {Durable, Core} && q.retention in {Durable, Core}
    ensures Preferred(q, r) <==> Outranks(r, q)
  {
    StrLeqExactly(q.id, r.id);
  }

  /** Who the planner protects. */
  lemma ProtectedExactly(active: seq<Memory>, policy: Policy, r: Memory)
    requires UniqueIds(active)
    ensures Protected(active, policy, r) <==> Stays(active, policy, r)
  {
    if r in active && Anchors(r, r.anchor) {
      PreferredIsTotal(r, r);
      forall q | q in active && q != r && Anchors(q, r.anchor) ensures Preferred(q, r) <==> Outranks(r, q) {
        var i :| 0 <= i < |active| && active[i] == q;
        var j :| 0 <= j < |active| && active[j] == r;
        assert i != j;
        OutranksExactly(r, q);
      }
      if Survivor(active, policy, r) {
        assert forall q :: q in active && Anchors(q, r.anchor) ==> Continuity.Holds(q, r.anchor);
      }
    }
  }

  /** The decision lists them by identifier, each once. */
  lemma ListsTheProtected(active: seq<Memory>, policy: Policy, r: Memory)
    requires UniqueIds(active) && r in active
    ensures r.id in ProtectedIds(active, policy) <==> Stays(active, policy, r)
    ensures Sorted(ProtectedIds(active, policy), StrLeq) && Distinct(ProtectedIds(active, policy))
  {
    ProtectedExactly(active, policy, r);
    if r.id in ProtectedIds(active, policy) {
      var q :| q in active && Protected(active, policy, q) && q.id == r.id;
      var i :| 0 <= i < |active| && active[i] == q;
      var j :| 0 <= j < |active| && active[j] == r;
      assert i == j;
    }
  }

  // ---- who leaves first ----

  predicate Cheaper(utility: Memory -> real, r: Memory, q: Memory) {
    utility(r) < utility(q) || (utility(r) == utility(q) && r.id != q.id && Precedes(r.id, q.id))
  }

  ghost function ValidOnes(active: seq<Memory>): set<Memory> { set r | r in active && r.sourceValid }

  ghost function MayLeave(active: seq<Memory>, policy: Policy): set<Memory> {
    set r | r in active && r.sourceValid && !Stays(active, policy, r)
  }

  /** Some of the records, each of them cheaper than all the others. */
  ghost predicate Cheapest(utility: Memory -> real, all: set<Memory>, some: set<Memory>) {
    some <= all && forall r, q :: r in some && q in all && q !in some ==> Cheaper(utility, r, q)
  }

  /** The incoming record fits beside the valid ones when these are gone. */
  ghost predicate RoomWithout(active: seq<Memory>, gone: set<Memory>, incoming: Memory, policy: Policy) {
    var kept := ValidOnes(active) - gone;
    |kept| + 1 <= policy.maxRecords && Weight(kept) + |incoming.text| <= policy.maxChars
  }

  /** The fewest of the cheapest records that must go. */
  ghost predicate Leave(active: seq<Memory>, incoming: Memory, policy: Policy, utility: Memory -> real,
                        gone: set<Memory>) {
    && Cheapest(utility, MayLeave(active, policy), gone) && RoomWithout(active, gone, incoming, policy)
    && forall fewer :: Cheapest(utility, MayLeave(active, policy), fewer) && |fewer| < |gone| ==>
         !RoomWithout(active, fewer, incoming, policy)
  }

  ghost predicate Ascending(utility: Memory -> real, cs: seq<Memory>) {
    forall i, j :: 0 <= i < j < |cs| ==> Cheaper(utility, cs[i], cs[j])
  }

  /** A listing in ascending order. */
  ghost predicate Lists(utility: Memory -> real, all: set<Memory>, cs: seq<Memory>) {
    (forall r :: r in cs <==> r in all) && Ascending(utility, cs)
  }

  lemma NeverBoth(utility: Memory -> real, r: Memory, q: Memory)
    ensures !(Cheaper(utility, r, q) && Cheaper(utility, q, r))
  {
    StrLeqExactly(r.id, q.id);
    StrLeqExactly(q.id, r.id);
    if StrLeq(r.id, q.id) && StrLeq(q.id, r.id) { StrLeqAntisymmetric(r.id, q.id); }
  }

  lemma ListsAreDistinct(utility: Memory -> real, all: set<Memory>, cs: seq<Memory>)
    requires Lists(utility, all, cs)
    ensures Distinct(cs)
  {
    forall i, j | 0 <= i < j < |cs| ensures cs[i] != cs[j] { NeverBoth(utility, cs[i], cs[j]); }
  }

  lemma PrefixIsCheapest(utility: Memory -> real, all: set<Memory>, cs: seq<Memory>, k: nat)
    requires Lists(utility, all, cs) && k <= |cs|
    ensures Cheapest(utility, all, SetUpTo(cs, k)) && |SetUpTo(cs, k)| == k
  {
    ListsAreDistinct(utility, all, cs);
    SumIsWeight(cs, k);
    forall r, q | r in SetUpTo(cs, k) && q in all && q !in SetUpTo(cs, k) ensures Cheaper(utility, r, q) {
      var i :| 0 <= i < k && cs[i] == r;
      var j :| 0 <= j < |cs| && cs[j] == q;
      assert j >= k;
    }
    assert forall r :: r in SetUpTo(cs, k) ==> r in cs;
  }

  /** The cheapest records are the first ones of the listing. */
  lemma {:induction false} CheapestIsPrefix(utility: Memory -> real, all: set<Memory>, cs: seq<Memory>,
                                            some: set<Memory>, k: nat)
    requires Lists(utility, all, cs) && Cheapest(utility, all, some) && k <= |cs| && SetUpTo(cs, k) <= some
    ensures |some| <= |cs| && some == SetUpTo(cs, |some|)
    decreases |cs| - k
  {
    ListsAreDistinct(utility, all, cs);
    SumIsWeight(cs, k);
    if k < |cs| && cs[k] in some {
      SetGrows(cs, k);
      CheapestIsPrefix(utility, all, cs, some, k + 1);
    } else {
      forall r | r in some ensures r in SetUpTo(cs, k) { NoneBehind(utility, all, cs, some, k, r); }
      assert some == SetUpTo(cs, k);
    }
  }

  lemma NoneBehind(utility: Memory -> real, all: set<Memory>, cs: seq<Memory>, some: set<Memory>, k: nat, r: Memory)
    requires Lists(utility, all, cs) && Cheapest(utility, all, some) && k <= |cs| && r in some
    requires k < |cs| ==> cs[k] !in some
    ensures r in SetUpTo(cs, k)
  {
    var i :| 0 <= i < |cs| && cs[i] == r;
    if i >= k {
      assert cs[k] in all;
      NeverBoth(utility, cs[k], cs[i]);
    }
  }

  lemma CandidatesAreListed(active: seq<Memory>, policy: Policy, utility: Memory -> real)
    requires UniqueIds(active)
    ensures Lists(utility, MayLeave(active, policy), Candidates(active, policy, utility))
  {
    var cs := Candidates(active, policy, utility);
    CandidateFacts(active, policy, utility);
    forall r ensures r in cs <==> r in MayLeave(active, policy) {
      ProtectedExactly(active, policy, r);
    }
    forall i, j | 0 <= i < j < |cs| ensures Cheaper(utility, cs[i], cs[j]) {
      StrLeqExactly(cs[i].id, cs[j].id);
      assert ByUtility(utility)(cs[i], cs[j]);
    }
  }

  lemma RoomIsFit(active: seq<Memory>, policy: Policy, incoming: Memory, cs: seq<Memory>, k: nat)
    requires UniqueIds(active) && Distinct(cs) && k <= |cs| && forall r :: r in cs ==> r in ValidOnes(active)
    ensures RoomWithout(active, SetUpTo(cs, k), incoming, policy) <==>
            FitsAfter(|Valid(active)|, Total(Valid(active)), cs, k, incoming, policy)
    ensures |ValidOnes(active) - SetUpTo(cs, k)| == |Valid(active)| - k
    ensures Weight(ValidOnes(active) - SetUpTo(cs, k)) == Total(Valid(active)) - Sum(cs, k)
  {
    var valid := Valid(active);
    ValidFacts(active);
    SumIsWeight(valid, |valid|);
    SumIsWeight(cs, k);
    assert SetUpTo(valid, |valid|) == ValidOnes(active) by {
      forall r ensures r in SetUpTo(valid, |valid|) <==> r in ValidOnes(active) {
        assert r in valid <==> r in ValidOnes(active);
      }
    }
    assert SetUpTo(cs, k) <= ValidOnes(active) by { assert forall r :: r in SetUpTo(cs, k) ==> r in cs; }
    WeightMinus(ValidOnes(active), SetUpTo(cs, k));
  }

  // ---- the decision ----

  lemma LeaveIsFirstFit(active: seq<Memory>, incoming: Memory, policy: Policy, utility: Memory -> real,
                        gone: set<Memory>, cs: seq<Memory>)
    requires UniqueIds(active) && Leave(active, incoming, policy, utility, gone)
    requires cs == Candidates(active, policy, utility)
    ensures |gone| <= |cs| && gone == SetUpTo(cs, |gone|)
    ensures FirstFit(|Valid(active)|, Total(Valid(active)), cs, 0, incoming, policy) == Some(|gone|)
  {
    var all := MayLeave(active, policy);
    CandidatesAreListed(active, policy, utility);
    ListsAreDistinct(utility, all, cs);
    CheapestIsPrefix(utility, all, cs, gone, 0);
    RoomIsFit(active, policy, incoming, cs, |gone|);
    forall j | 0 <= j < |gone| ensures !FitsAfter(|Valid(active)|, Total(Valid(active)), cs, j, incoming, policy) {
      PrefixIsCheapest(utility, all, cs, j);
      RoomIsFit(active, policy, incoming, cs, j);
    }
    FirstFitIs(|Valid(active)|, Total(Valid(active)), cs, |gone|, incoming, policy);
  }

  lemma FirstFitLeaves(active: seq<Memory>, incoming: Memory, policy: Policy, utility: Memory -> real,
                       cs: seq<Memory>, k: nat)
    requires UniqueIds(active) && cs == Candidates(active, policy, utility) && k <= |cs|
    requires FirstFit(|Valid(active)|, Total(Valid(active)), cs, 0, incoming, policy) == Some(k)
    ensures Leave(active, incoming, policy, utility, SetUpTo(cs, k))
  {
    var all := MayLeave(active, policy);
    CandidatesAreListed(active, policy, utility);
    ListsAreDistinct(utility, all, cs);
    PrefixIsCheapest(utility, all, cs, k);
    RoomIsFit(active, policy, incoming, cs, k);
    forall fewer | Cheapest(utility, all, fewer) && |fewer| < k ensures !RoomWithout(active, fewer, incoming, policy) {
      CheapestIsPrefix(utility, all, cs, fewer, 0);
      RoomIsFit(active, policy, incoming, cs, |fewer|);
    }
  }

  ghost function Episodics(all: set<Memory>): set<Memory> { set r | r in all && r.retention == Episodic }

  /** Two episodic records when the number of records presses, one otherwise. */
  predicate Enough(active: seq<Memory>, policy: Policy, n: nat) {
    n >= 1 && (|active| + 1 > policy.maxRecords ==> n >= 2)
  }

  /** The n cheapest of them, the cheapest first. */
  ghost predicate NamesCheapest(utility: Memory -> real, all: set<Memory>, n: nat, ids: seq<string>) {
    exists named: seq<Memory> :: IsNaming(utility, all, n, ids, named)
  }

  ghost predicate IsNaming(utility: Memory -> real, all: set<Memory>, n: nat, ids: seq<string>, named: seq<Memory>) {
    && |named| == |ids| == n && (forall i :: 0 <= i < n ==> named[i].id == ids[i])
    && Lists(utility, (set r | r in named), named) && Cheapest(utility, all, (set r | r in named))
  }

  /** Nobody episodic has to go: the incoming record is admitted, and exactly the invalid records and the cheapest
      few retire. */
  ghost predicate Admits(active: seq<Memory>, incoming: Memory, gone: set<Memory>, d: Decision) {
    var kept := ValidOnes(active) - gone;
    && d.admit && d.compact == []
    && (forall r :: r in active ==> (r.id in d.retire <==> !r.sourceValid || r in gone))
    && (forall id :: id in d.retire ==> exists r :: r in active && r.id == id)
    && d.projectedRecords == |kept| + 1 && d.projectedChars == Weight(kept) + |incoming.text|
    && (d.reason == Fits <==> gone == {} && forall r :: r in active ==> r.sourceValid)
    && (d.reason == RetireInvalidOrLowerUtility <==> d.reason != Fits)
  }

  ghost predicate Refuses(active: seq<Memory>, d: Decision, reason: Reason) {
    && !d.admit && d.retire == [] && d.reason == reason
    && d.projectedRecords == |active| && d.projectedChars == Total(active)
  }

  /** Somebody episodic has to go: as many as that are to be compacted, but enough and at most a batch, or there are
      not enough of them. */
  ghost predicate Compacts(active: seq<Memory>, policy: Policy, utility: Memory -> real, gone: set<Memory>, n: nat,
                           d: Decision) {
    var all := Episodics(MayLeave(active, policy));
    if !Enough(active, policy, |all|) then Refuses(active, d, ProtectedCapacityExhausted) && d.compact == []
    else
      && Refuses(active, d, CheckpointCompactionRequired)
      && NamesCheapest(utility, all, if n < policy.batch then n else policy.batch, d.compact)
      && |Episodics(gone)| <= n && Enough(active, policy, n)
      && forall fewer: nat :: |Episodics(gone)| <= fewer < n ==> !Enough(active, policy, fewer)
  }

  lemma AdmittingDecision(active: seq<Memory>, incoming: Memory, policy: Policy, utility: Memory -> real, k: nat,
                          cs: seq<Memory>)
    requires cs == Candidates(active, policy, utility) && k <= |cs|
    requires FirstFit(|Valid(active)|, Total(Valid(active)), cs, 0, incoming, policy) == Some(k)
    requires forall i :: 0 <= i < k ==> !cs[i].retention.Episodic?
    ensures var d, retire := Decide(active, incoming, policy, utility), InvalidIds(active) + Ids(cs[..k]);
            && d.admit && d.compact == [] && d.retire == retire
            && d.reason == (if retire == [] then Fits else RetireInvalidOrLowerUtility)
            && d.projectedRecords == |Valid(active)| - k + 1
            && d.projectedChars == Total(Valid(active)) - Sum(cs, k) + incoming.Chars()
  {
    RetentionRuns.NoEpisodicYet(cs, k);
  }

  lemma RetiresWhom(active: seq<Memory>, policy: Policy, utility: Memory -> real, k: nat, cs: seq<Memory>,
                    gone: set<Memory>)
    requires UniqueIds(active) && cs == Candidates(active, policy, utility) && k <= |cs| && gone == SetUpTo(cs, k)
    ensures var retire := InvalidIds(active) + Ids(cs[..k]);
            && (forall r :: r in active ==> (r.id in retire <==> !r.sourceValid || r in gone))
            && (forall id :: id in retire ==> exists r :: r in active && r.id == id)
            && (retire == [] <==> gone == {} && forall r :: r in active ==> r.sourceValid)
  {
    CandidateFacts(active, policy, utility);
    RetentionRuns.SetOfPrefix(cs, k);
    forall r | r in active ensures r.id in InvalidIds(active) + Ids(cs[..k]) <==> !r.sourceValid || r in gone {
      RetentionRuns.PrefixIds(active, policy, utility, k, r);
    }
    RetiredAreActive(active, cs, k);
    if k > 0 { assert cs[0] in gone; }
    if InvalidIds(active) != [] { assert InvalidIds(active)[0] in InvalidIds(active); }
    if r :| r in active && !r.sourceValid { assert r.id in InvalidIds(active); }
  }

  lemma AdmitsWhom(active: seq<Memory>, incoming: Memory, policy: Policy, utility: Memory -> real, gone: set<Memory>)
    requires UniqueIds(active) && Leave(active, incoming, policy, utility, gone) && Episodics(gone) == {}
    ensures Admits(active, incoming, gone, Decide(active, incoming, policy, utility))
  {
    var cs, k := Candidates(active, policy, utility), |gone|;
    LeaveIsFirstFit(active, incoming, policy, utility, gone, cs);
    CandidatesAreValid(active, policy, utility, cs);
    RoomIsFit(active, policy, incoming, cs, k);
    forall i | 0 <= i < k ensures !cs[i].retention.Episodic? {
      assert cs[i] in gone;
      assert cs[i] !in Episodics(gone);
    }
    AdmittingDecision(active, incoming, policy, utility, k, cs);
    RetiresWhom(active, policy, utility, k, cs, gone);
  }

  lemma CandidatesAreValid(active: seq<Memory>, policy: Policy, utility: Memory -> real, cs: seq<Memory>)
    requires UniqueIds(active) && cs == Candidates(active, policy, utility)
    ensures Distinct(cs) && forall r :: r in cs ==> r in ValidOnes(active)
  {
    CandidateFacts(active, policy, utility);
  }

  lemma RetiredAreActive(active: seq<Memory>, cs: seq<Memory>, k: nat)
    requires k <= |cs| && forall r :: r in cs ==> r in active
    ensures forall id :: id in InvalidIds(active) + Ids(cs[..k]) ==> exists r :: r in active && r.id == id
  {
    forall id | id in Ids(cs[..k]) ensures exists r :: r in active && r.id == id {
      var i :| 0 <= i < k && cs[i].id == id;
      assert cs[i] in active;
    }
  }

  lemma EpisodicsAreListed(utility: Memory -> real, all: set<Memory>, cs: seq<Memory>)
    requires Lists(utility, all, cs)
    ensures Lists(utility, Episodics(all), Select(cs, IsEpisodic))
  {
    InSelect(cs, IsEpisodic);
    SelectKeepsOrder(utility, cs, |cs|);
  }

  lemma {:induction false} SelectKeepsOrder(utility: Memory -> real, cs: seq<Memory>, n: nat)
    requires n <= |cs| && Ascending(utility, cs)
    ensures Ascending(utility, SelectUpTo(cs, IsEpisodic, n))
  {
    if n > 0 {
      SelectKeepsOrder(utility, cs, n - 1);
      var r, last := SelectUpTo(cs, IsEpisodic, n - 1), cs[n - 1];
      SelectElements(cs, IsEpisodic, n - 1);
      forall i | 0 <= i < |r| ensures Cheaper(utility, r[i], last) {
        assert r[i] in cs[..n - 1];
        var j :| 0 <= j < n - 1 && cs[..n - 1][j] == r[i];
      }
      OneMoreAscends(utility, r, last);
    }
  }

  lemma OneMoreAscends(utility: Memory -> real, r: seq<Memory>, last: Memory)
    requires Ascending(utility, r) && forall i :: 0 <= i < |r| ==> Cheaper(utility, r[i], last)
    ensures Ascending(utility, r + [last])
  {
  }

  lemma EpisodicsUpTo(cs: seq<Memory>, k: nat)
    requires Distinct(cs) && k <= |cs|
    ensures |Episodics(SetUpTo(cs, k))| == |SelectUpTo(cs, IsEpisodic, k)|
  {
    var e := SelectUpTo(cs, IsEpisodic, k);
    SelectDistinct(cs, IsEpisodic, k);
    SelectElements(cs, IsEpisodic, k);
    SumIsWeight(e, |e|);
    RetentionRuns.SetOfPrefix(cs, k);
    RetentionRuns.SetOfAll(e);
    assert SetUpTo(e, |e|) == Episodics(SetUpTo(cs, k));
  }

  lemma PrefixNames(utility: Memory -> real, all: set<Memory>, eps: seq<Memory>, n: nat)
    requires Lists(utility, all, eps) && n <= |eps|
    ensures NamesCheapest(utility, all, n, Ids(eps)[..n])
  {
    PrefixIsCheapest(utility, all, eps, n);
    var named := eps[..n];
    RetentionRuns.SetOfPrefix(eps, n);
    assert (set r | r in named) == SetUpTo(eps, n);
    assert IsNaming(utility, all, n, Ids(eps)[..n], named);
  }

  lemma CompactingDecision(active: seq<Memory>, incoming: Memory, policy: Policy, utility: Memory -> real, k: nat,
                           cs: seq<Memory>, e: nat, eps: seq<Memory>)
    requires cs == Candidates(active, policy, utility) && k <= |cs| && eps == Select(cs, IsEpisodic)
    requires FirstFit(|Valid(active)|, Total(Valid(active)), cs, 0, incoming, policy) == Some(k)
    requires e == |SelectUpTo(cs, IsEpisodic, k)| > 0
    ensures var d := Decide(active, incoming, policy, utility);
            var minimum := if |active| + 1 > policy.maxRecords then 2 else 1;
            var n := if e < minimum then minimum else e;
            && Refuses(active, d, if |eps| < minimum then ProtectedCapacityExhausted else CheckpointCompactionRequired)
            && e <= |eps|
            && d.compact == if |eps| < minimum then [] else Ids(eps)[..if n < policy.batch then n else policy.batch]
  {
    SelectGrows(cs, IsEpisodic, k, |cs|);
  }

  /** What is known of the episodic candidates, listed, and of those that would have to go. */
  lemma EpisodicFacts(active: seq<Memory>, policy: Policy, utility: Memory -> real, cs: seq<Memory>, k: nat,
                      all: set<Memory>, eps: seq<Memory>)
    requires UniqueIds(active) && cs == Candidates(active, policy, utility) && k <= |cs|
    requires all == Episodics(MayLeave(active, policy)) && eps == Select(cs, IsEpisodic)
    ensures Lists(utility, all, eps) && |eps| == |all|
    ensures |Episodics(SetUpTo(cs, k))| == |SelectUpTo(cs, IsEpisodic, k)|
  {
    CandidatesAreListed(active, policy, utility);
    EpisodicsAreListed(utility, MayLeave(active, policy), cs);
    CountOfListed(utility, all, eps);
    ListsAreDistinct(utility, MayLeave(active, policy), cs);
    EpisodicsUpTo(cs, k);
  }

  lemma CompactsWhom(active: seq<Memory>, incoming: Memory, policy: Policy, utility: Memory -> real, gone: set<Memory>)
    returns (n: nat)
    requires UniqueIds(active) && Leave(active, incoming, policy, utility, gone) && Episodics(gone) != {}
    ensures Compacts(active, policy, utility, gone, n, Decide(active, incoming, policy, utility))
  {
    var cs, k := Candidates(active, policy, utility), |gone|;
    var all, eps := Episodics(MayLeave(active, policy)), Select(cs, IsEpisodic);
    LeaveIsFirstFit(active, incoming, policy, utility, gone, cs);
    EpisodicFacts(active, policy, utility, cs, k, all, eps);
    var e := |SelectUpTo(cs, IsEpisodic, k)|;
    CompactingDecision(active, incoming, policy, utility, k, cs, e, eps);
    n := CompactsConcluded(active, policy, utility, gone, Decide(active, incoming, policy, utility), all, eps, e);
  }

  lemma CompactsConcluded(active: seq<Memory>, policy: Policy, utility: Memory -> real, gone: set<Memory>, d: Decision,
                          all: set<Memory>, eps: seq<Memory>, e: nat) returns (n: nat)
    requires all == Episodics(MayLeave(active, policy)) && Lists(utility, all, eps) && |eps| == |all|
    requires |Episodics(gone)| == e && 0 < e <= |eps|
    requires var minimum := if |active| + 1 > policy.maxRecords then 2 else 1;
             var n := if e < minimum then minimum else e;
             && Refuses(active, d, if |eps| < minimum then ProtectedCapacityExhausted else CheckpointCompactionRequired)
             && d.compact == if |eps| < minimum then [] else Ids(eps)[..if n < policy.batch then n else policy.batch]
    ensures Compacts(active, policy, utility, gone, n, d)
  {
    var minimum := if |active| + 1 > policy.maxRecords then 2 else 1;
    n := if e < minimum then minimum else e;
    if |eps| >= minimum {
      PrefixNames(utility, all, eps, if n < policy.batch then n else policy.batch);
    }
  }

  lemma CountOfListed(utility: Memory -> real, all: set<Memory>, cs: seq<Memory>)
    requires Lists(utility, all, cs)
    ensures |cs| == |all|
  {
    PrefixIsCheapest(utility, all, cs, |cs|);
    RetentionRuns.SetOfAll(cs);
    assert SetUpTo(cs, |cs|) == all;
  }

  ghost predicate GivesUp(active: seq<Memory>, d: Decision) {
    Refuses(active, d, ProtectedCapacityExhausted) && d.compact == []
  }

  lemma OnlyOneLeave(active: seq<Memory>, incoming: Memory, policy: Policy, utility: Memory -> real,
                     a: set<Memory>, b: set<Memory>)
    requires UniqueIds(active)
    requires Leave(active, incoming, policy, utility, a) && Leave(active, incoming, policy, utility, b)
    ensures a == b
  {
    var cs := Candidates(active, policy, utility);
    LeaveIsFirstFit(active, incoming, policy, utility, a, cs);
    LeaveIsFirstFit(active, incoming, policy, utility, b, cs);
  }

  /** With too little room even without everybody who may leave, the plan gives up. */
  lemma GivesUpExactly(active: seq<Memory>, incoming: Memory, policy: Policy, utility: Memory -> real)
    requires UniqueIds(active) && !RoomWithout(active, MayLeave(active, policy), incoming, policy)
    ensures GivesUp(active, Decide(active, incoming, policy, utility))
  {
    var cs := Candidates(active, policy, utility);
    CandidatesAreValid(active, policy, utility, cs);
    CandidatesAreListed(active, policy, utility);
    RetentionRuns.SetOfAll(cs);
    assert SetUpTo(cs, |cs|) == MayLeave(active, policy);
    forall j | 0 <= j <= |cs| ensures !FitsAfter(|Valid(active)|, Total(Valid(active)), cs, j, incoming, policy) {
      RoomIsFit(active, policy, incoming, cs, |cs|);
      MoreRoomLater(|Valid(active)|, Total(Valid(active)), cs, j, |cs|, incoming, policy);
    }
    assert FirstFit(|Valid(active)|, Total(Valid(active)), cs, 0, incoming, policy).None?;
  }

  lemma {:induction false} MoreRoomLater(count: nat, chars: nat, cs: seq<Memory>, j: nat, k: nat, incoming: Memory,
                                         policy: Policy)
    requires j <= k <= |cs|
    ensures FitsAfter(count, chars, cs, j, incoming, policy) ==> FitsAfter(count, chars, cs, k, incoming, policy)
  {
    if j < k { MoreRoomLater(count, chars, cs, j, k - 1, incoming, policy); }
  }

  /** Otherwise it evicts the fewest of the cheapest. */
  lemma SomeLeave(active: seq<Memory>, incoming: Memory, policy: Policy, utility: Memory -> real)
    returns (gone: set<Memory>)
    requires UniqueIds(active) && RoomWithout(active, MayLeave(active, policy), incoming, policy)
    ensures Leave(active, incoming, policy, utility, gone)
  {
    var cs := Candidates(active, policy, utility);
    CandidatesAreValid(active, policy, utility, cs);
    CandidatesAreListed(active, policy, utility);
    RetentionRuns.SetOfAll(cs);
    assert SetUpTo(cs, |cs|) == MayLeave(active, policy);
    RoomIsFit(active, policy, incoming, cs, |cs|);
    var k := FirstFit(|Valid(active)|, Total(Valid(active)), cs, 0, incoming, policy).value;
    FirstFitLeaves(active, incoming, policy, utility, cs, k);
    gone := SetUpTo(cs, k);
  }

  /** The decision in full: whether there is room without all who may leave; if so, who the fewest of the cheapest
      are; and whether somebody episodic is among them. */
  lemma DecidesByTheCheapest(active: seq<Memory>, incoming: Memory, policy: Policy, utility: Memory -> real)
    returns (gone: set<Memory>, n: nat)
    requires UniqueIds(active)
    ensures var d := Decide(active, incoming, policy, utility);
            if !RoomWithout(active, MayLeave(active, policy), incoming, policy) then GivesUp(active, d)
            else Leave(active, incoming, policy, utility, gone)
                 && if Episodics(gone) == {} then Admits(active, incoming, gone, d)
                    else Compacts(active, policy, utility, gone, n, d)
  {
    gone, n := {}, 0;
    if RoomWithout(active, MayLeave(active, policy), incoming, policy) {
      gone := SomeLeave(active, incoming, policy, utility);
      if Episodics(gone) == {} { AdmitsWhom(active, incoming, policy, utility, gone); }
      else { n := CompactsWhom(active, incoming, policy, utility, gone); }
    } else {
      GivesUpExactly(active, incoming, policy, utility);
    }
  }

  /** Of two valid records of which an admitted plan retires one and keeps the other, which may leave as well, the
      first is the cheaper one. */
  lemma TheCheaperLeaves(active: seq<Memory>, incoming: Memory, policy: Policy, utility: Memory -> real,
                         r: Memory, q: Memory)
    requires UniqueIds(active) && Decide(active, incoming, policy, utility).admit
    requires r in active && r.sourceValid && r.id in Decide(active, incoming, policy, utility).retire
    requires q in active && q.sourceValid && q.id !in Decide(active, incoming, policy, utility).retire
    requires !Stays(active, policy, q)
    ensures utility(r) < utility(q) || (utility(r) == utility(q) && r.id != q.id && Precedes(r.id, q.id))
  {
    var gone, n := DecidesByTheCheapest(active, incoming, policy, utility);
    assert r in gone && q !in gone && q in MayLeave(active, policy);
    assert Cheaper(utility, r, q);
  }

  /** So it is with the episodic records that a plan names for compaction and those it does not. */
  lemma TheCheaperAreCompacted(active: seq<Memory>, incoming: Memory, policy: Policy, utility: Memory -> real,
                               r: Memory, q: Memory)
    requires UniqueIds(active) && r in active && r.id in Decide(active, incoming, policy, utility).compact
    requires q in active && q.sourceValid && q.retention == Episodic && !Stays(active, policy, q)
    requires q.id !in Decide(active, incoming, policy, utility).compact
    ensures utility(r) < utility(q) || (utility(r) == utility(q) && r.id != q.id && Precedes(r.id, q.id))
    ensures r.sourceValid && r.retention == Episodic && !Stays(active, policy, r)
  {
    var gone, n := DecidesByTheCheapest(active, incoming, policy, utility);
    var ids, all := Decide(active, incoming, policy, utility).compact, Episodics(MayLeave(active, policy));
    var m := if n < policy.batch then n else policy.batch;
    var named :| IsNaming(utility, all, m, ids, named);
    NamedAreCheapest(active, utility, all, ids, named, r, q);
    assert r in MayLeave(active, policy);
  }

  lemma NamedAreCheapest(active: seq<Memory>, utility: Memory -> real, all: set<Memory>, ids: seq<string>,
                         named: seq<Memory>, r: Memory, q: Memory)
    requires UniqueIds(active) && (forall x :: x in all ==> x in active) && IsNaming(utility, all, |ids|, ids, named)
    requires r in active && r.id in ids && q in all && q.id !in ids
    ensures r in all && Cheaper(utility, r, q)
  {
    var i :| 0 <= i < |ids| && ids[i] == r.id;
    assert named[i] in (set x | x in named);
    RetentionRuns.SameRecord(active, named[i], r);
    forall j | 0 <= j < |named| ensures named[j] != q { assert ids[j] in ids; }
  }

  // ---- the plan ----

  /** Two of the first n records that are active share an identifier. */
  ghost predicate Repeated(records: seq<Memory>, n: nat)
    requires n <= |records|
  {
    exists i, j :: 0 <= i < j < n && records[i].active && records[j].active && records[i].id == records[j].id
  }

  lemma {:induction false} ActiveUpTo(records: seq<Memory>, n: nat)
    requires n <= |records|
    ensures UniqueIds(SelectUpTo(records, IsActive, n)) <==> !Repeated(records, n)
  {
    if n > 0 {
      ActiveUpTo(records, n - 1);
      var front, last := SelectUpTo(records, IsActive, n - 1), records[n - 1];
      if Repeated(records, n - 1) { assert Repeated(records, n); }
      if last.active {
        assert SelectUpTo(records, IsActive, n) == front + [last];
        OneMoreUnique(front, last);
        Namesake(records, n - 1, front, last);
      } else {
        assert SelectUpTo(records, IsActive, n) == front;
        if i, j :| 0 <= i < j < n && records[i].active && records[j].active && records[i].id == records[j].id {
          assert j < n - 1;
        }
      }
    }
  }

  lemma OneMoreUnique(front: seq<Memory>, last: Memory)
    ensures UniqueIds(front + [last]) <==> UniqueIds(front) && forall r :: r in front ==> r.id != last.id
  {
    var all := front + [last];
    if UniqueIds(all) {
      forall i, j | 0 <= i < j < |front| ensures front[i].id != front[j].id { assert all[i].id != all[j].id; }
      forall r | r in front ensures r.id != last.id {
        var i :| 0 <= i < |front| && front[i] == r;
        assert all[i].id != all[|front|].id;
      }
    }
  }

  lemma Namesake(records: seq<Memory>, n: nat, front: seq<Memory>, last: Memory)
    requires n < |records| && front == SelectUpTo(records, IsActive, n) && last == records[n] && last.active
    ensures Repeated(records, n + 1) <==> Repeated(records, n) || exists r :: r in front && r.id == last.id
  {
    SelectElements(records, IsActive, n);
    if r :| r in front && r.id == last.id {
      var i :| 0 <= i < n && records[..n][i] == r;
      assert records[i].active && records[i].id == records[n].id;
    }
    if Repeated(records, n + 1) && !Repeated(records, n) {
      var i, j :| 0 <= i < j < n + 1 && records[i].active && records[j].active && records[i].id == records[j].id;
      assert j == n && records[..n][i] == records[i];
    }
  }

  ghost predicate RefusesFirst(active: seq<Memory>, d: Decision, reason: Reason) {
    Refuses(active, d, reason) && d.compact == [] && d.protectedIds == []
  }

  /** What is checked before anything is weighed, and the records that are: the active ones. */
  lemma PlansExactly(records: seq<Memory>, incoming: Memory, policy: Policy, now: int, utility: Memory -> real)
    ensures var p, taken := PlanOf(records, incoming, policy, now, utility),
                            exists r :: r in records && r.active && r.id == incoming.id;
            && (p == NegativeClock <==> now < 0)
            && (p == DuplicateIds <==> now >= 0 && Repeated(records, |records|))
            && (p == IncomingExists <==> now >= 0 && !Repeated(records, |records|) && taken)
            && (p.Planned? ==> UniqueIds(Active(records)) && incoming.id !in IdSet(Active(records)))
    ensures forall r :: r in Active(records) <==> r in records && r.active
    ensures var p, active := PlanOf(records, incoming, policy, now, utility), Active(records);
            p.Planned? ==>
              var d := p.decision;
              if !incoming.sourceValid then RefusesFirst(active, d, IncomingSourceInvalid)
              else if !incoming.active then RefusesFirst(active, d, IncomingNotActive)
              else if |incoming.text| > policy.maxChars then RefusesFirst(active, d, IncomingExceedsCapacity)
              else d == Decide(active, incoming, policy, utility)
  {
    InSelect(records, IsActive);
    ActiveUpTo(records, |records|);
    CountedIdsAreUnique(Active(records));
    IdsOfActive(records, incoming.id);
  }

  lemma IdsOfActive(records: seq<Memory>, id: string)
    ensures id in IdSet(Active(records)) <==> exists r :: r in records && r.active && r.id == id
  {
    var active := Active(records);
    InSelect(records, IsActive);
    if id in IdSet(active) {
      var i :| 0 <= i < |active| && active[i].id == id;
      assert active[i] in active;
    }
    if r :| r in records && r.active && r.id == id {
      var i :| 0 <= i < |active| && active[i] == r;
      assert active[i].id == id;
    }
  }

  lemma ListsProtected(active: seq<Memory>, incoming: Memory, policy: Policy, utility: Memory -> real, r: Memory)
    requires UniqueIds(active) && r in active
    ensures var guards := Decide(active, incoming, policy, utility).protectedIds;
            (r.id in guards <==> Stays(active, policy, r)) && Sorted(guards, StrLeq) && Distinct(guards)
  {
    ListsTheProtected(active, policy, r);
    DecidesWithGuards(active, incoming, policy, utility);
  }

  lemma DecidesWithGuards(active: seq<Memory>, incoming: Memory, policy: Policy, utility: Memory -> real)
    ensures Decide(active, incoming, policy, utility).protectedIds == ProtectedIds(active, policy)
  {
  }
}
