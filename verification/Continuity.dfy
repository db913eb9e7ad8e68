/** Long-horizon retention: which records leave when a new one comes, and which facts open a
    new session. */
module Continuity {
  import opened Ordering
  import opened Text
  import opened CanonicalJson

  datatype RetentionClass = Transient | Episodic | Durable | Core

  function Rank(c: RetentionClass): nat {
    match c case Transient => 0 case Episodic => 1 case Durable => 2 case Core => 3
  }

  datatype Memory = Memory(id: string, text: string, retention: RetentionClass, recordedAt: nat, lastUsedAt: nat,
                           useCount: nat, importance: real, confidence: real, anchor: string,
                           pinned: bool, sourceValid: bool, active: bool)
  {
    function Chars(): nat { |text| }
  }

  datatype Policy = Policy(maxRecords: nat, maxChars: nat, preserveAnchors: bool, protectCore: bool,
                           protectDurable: bool, protectPinned: bool, batch: nat)
  {
    predicate Valid() { maxRecords >= 1 && maxChars >= 1 && batch >= 2 }
  }

  const DEFAULT_POLICY := Policy(2_000, 2_000_000, true, true, true, true, 8)

  datatype Reason = IncomingSourceInvalid | IncomingNotActive | IncomingExceedsCapacity
    | ProtectedCapacityExhausted | CheckpointCompactionRequired | Fits | RetireInvalidOrLowerUtility

  datatype Decision = Decision(admit: bool, reason: Reason, retire: seq<string>, compact: seq<string>,
                               protectedIds: seq<string>, projectedRecords: int, projectedChars: int)

  datatype Plan = Planned(decision: Decision) | NegativeClock | DuplicateIds | IncomingExists

  // ---- records and their sizes ----

  /** Those of the first n elements that are kept, in order. */
  function SelectUpTo(xs: seq<Memory>, keep: Memory -> bool, n: nat): (r: seq<Memory>)
    requires n <= |xs|
    ensures |r| <= n
  {
    if n == 0 then [] else
      SelectUpTo(xs, keep, n - 1) + (if keep(xs[n - 1]) then [xs[n - 1]] else [])
  }

  function Select(xs: seq<Memory>, keep: Memory -> bool): seq<Memory> { SelectUpTo(xs, keep, |xs|) }

  lemma {:induction false} SelectElements(xs: seq<Memory>, keep: Memory -> bool, n: nat)
    requires n <= |xs|
    ensures forall x :: x in SelectUpTo(xs, keep, n) <==> x in xs[..n] && keep(x)
  {
    if n > 0 {
      SelectElements(xs, keep, n - 1);
      assert xs[..n] == xs[..n - 1] + [xs[n - 1]];
    }
  }

  lemma InSelect(xs: seq<Memory>, keep: Memory -> bool)
    ensures forall x :: x in Select(xs, keep) <==> x in xs && keep(x)
  {
    SelectElements(xs, keep, |xs|);
    assert xs[..|xs|] == xs;
  }

  lemma {:induction false} SelectGrows(xs: seq<Memory>, keep: Memory -> bool, m: nat, n: nat)
    requires m <= n <= |xs|
    ensures SelectUpTo(xs, keep, m) <= SelectUpTo(xs, keep, n)
  {
    if m < n { SelectGrows(xs, keep, m, n - 1); }
  }

  /** The total size of the first n records. */
  function Sum(xs: seq<Memory>, n: nat): nat
    requires n <= |xs|
  {
    if n == 0 then 0 else Sum(xs, n - 1) + xs[n - 1].Chars()
  }

  function Total(xs: seq<Memory>): nat { Sum(xs, |xs|) }

  function Ids(xs: seq<Memory>): (ids: seq<string>)
    ensures |ids| == |xs| && forall i :: 0 <= i < |xs| ==> ids[i] == xs[i].id
  {
    seq(|xs|, i requires 0 <= i < |xs| => xs[i].id)
  }

  function IdSet(xs: seq<Memory>): (ids: set<string>)
    ensures forall id :: id in ids <==> exists i :: 0 <= i < |xs| && xs[i].id == id
  {
    set i | 0 <= i < |xs| :: xs[i].id
  }

  ghost predicate UniqueIds(xs: seq<Memory>) {
    forall i, j :: 0 <= i < j < |xs| ==> xs[i].id != xs[j].id
  }

  /** The total size of a set of records. */
  ghost function Weight(s: set<Memory>): nat
  {
    if s == {} then 0 else var x :| x in s; x.Chars() + Weight(s - {x})
  }

  lemma {:induction false} WeightRemove(s: set<Memory>, x: Memory)
    requires x in s
    ensures Weight(s) == x.Chars() + Weight(s - {x})
    decreases |s|
  {
    var y :| y in s && Weight(s) == y.Chars() + Weight(s - {y});
    if x != y {
      WeightRemove(s - {y}, x);
      WeightRemove(s - {x}, y);
      assert s - {y} - {x} == s - {x} - {y};
    }
  }

  lemma WeightAdd(s: set<Memory>, x: Memory)
    requires x !in s
    ensures Weight(s + {x}) == Weight(s) + x.Chars()
  {
    WeightRemove(s + {x}, x);
    assert s + {x} - {x} == s;
  }

  lemma {:induction false} WeightMinus(a: set<Memory>, b: set<Memory>)
    requires b <= a
    ensures Weight(a - b) == Weight(a) - Weight(b) && |a - b| == |a| - |b|
    decreases |b|
  {
    if b == {} {
      assert a - b == a;
    } else {
      var x :| x in b;
      WeightMinus(a, b - {x});
      WeightRemove(b, x);
      WeightRemove(a - (b - {x}), x);
      assert a - (b - {x}) - {x} == a - b;
    }
  }

  function SetUpTo(xs: seq<Memory>, n: nat): set<Memory>
    requires n <= |xs|
  {
    set i | 0 <= i < n :: xs[i]
  }

  lemma SetGrows(xs: seq<Memory>, n: nat)
    requires Distinct(xs) && n < |xs|
    ensures SetUpTo(xs, n + 1) == SetUpTo(xs, n) + {xs[n]} && xs[n] !in SetUpTo(xs, n)
  {
    forall x ensures x in SetUpTo(xs, n + 1) <==> x in SetUpTo(xs, n) + {xs[n]} {
      if x in SetUpTo(xs, n + 1) {
        var i :| 0 <= i < n + 1 && xs[i] == x;
      }
    }
  }

  lemma {:induction false} SumIsWeight(xs: seq<Memory>, n: nat)
    requires Distinct(xs) && n <= |xs|
    ensures Sum(xs, n) == Weight(SetUpTo(xs, n)) && |SetUpTo(xs, n)| == n
  {
    if n > 0 {
      SumIsWeight(xs, n - 1);
      SetGrows(xs, n - 1);
      WeightAdd(SetUpTo(xs, n - 1), xs[n - 1]);
    }
  }

  lemma {:induction false} SelectDistinct(xs: seq<Memory>, keep: Memory -> bool, n: nat)
    requires Distinct(xs) && n <= |xs|
    ensures Distinct(SelectUpTo(xs, keep, n))
  {
    if n > 0 {
      SelectDistinct(xs, keep, n - 1);
      SelectElements(xs, keep, n - 1);
      assert xs[n - 1] !in xs[..n - 1];
    }
  }

  // ---- protection ----

  predicate Guarded(r: Memory, policy: Policy) {
    r.sourceValid && ((policy.protectCore && r.retention.Core?) || (policy.protectDurable && r.retention.Durable?)
                      || (policy.protectPinned && r.pinned))
  }

  /** A valid core or durable record that holds an identity anchor. */
  predicate Holds(r: Memory, anchor: string) {
    r.sourceValid && r.anchor == anchor && NotBlank(anchor) && (r.retention.Core? || r.retention.Durable?)
  }

  /** The order in which holders of one anchor are preferred. */
  predicate Preferred(a: Memory, b: Memory) {
    if Rank(a.retention) != Rank(b.retention) then Rank(a.retention) < Rank(b.retention)
    else if a.importance != b.importance then a.importance < b.importance
    else if a.confidence != b.confidence then a.confidence < b.confidence
    else if a.lastUsedAt != b.lastUsedAt then a.lastUsedAt < b.lastUsedAt
    else if a.recordedAt != b.recordedAt then a.recordedAt < b.recordedAt
    else StrLeq(a.id, b.id)
  }

  /** The holder that stands for its anchor when no holder is protected otherwise. */
  predicate Survivor(active: seq<Memory>, policy: Policy, r: Memory) {
    && r in active && Holds(r, r.anchor)
    && forall q :: q in active && Holds(q, r.anchor) ==> !Guarded(q, policy) && Preferred(q, r)
  }

  /** Who may not be evicted. */
  predicate Protected(active: seq<Memory>, policy: Policy, r: Memory) {
    r in active && (Guarded(r, policy) || (policy.preserveAnchors && Survivor(active, policy, r)))
  }

  // ---- the anchors' survivors, found by loops ----

  lemma PreferredIsTotal(a: Memory, b: Memory)
    ensures Preferred(a, a) && (Preferred(a, b) || Preferred(b, a))
    ensures Preferred(a, b) && Preferred(b, a) ==> a.id == b.id
  {
    StrLeqReflexive(a.id);
    StrLeqConnected(a.id, b.id);
    if StrLeq(a.id, b.id) && StrLeq(b.id, a.id) { StrLeqAntisymmetric(a.id, b.id); }
  }

  lemma PreferredTransitive(a: Memory, b: Memory, c: Memory)
    requires Preferred(a, b) && Preferred(b, c)
    ensures Preferred(a, c)
  {
    if StrLeq(a.id, b.id) && StrLeq(b.id, c.id) { StrLeqTransitive(a.id, b.id, c.id); }
  }

  method MostPreferred(group: seq<Memory>) returns (best: Memory)
    requires group != []
    ensures best in group && forall q :: q in group ==> Preferred(q, best)
  {
    best := group[0];
    PreferredIsTotal(best, best);
    for i := 1 to |group|
      invariant best in group && forall j :: 0 <= j < i ==> Preferred(group[j], best)
    {
      PreferredIsTotal(group[i], best);
      if !Preferred(group[i], best) {
        forall j | 0 <= j < i ensures Preferred(group[j], group[i]) {
          PreferredTransitive(group[j], best, group[i]);
        }
        best := group[i];
        PreferredIsTotal(best, best);
      }
    }
  }

  /** The holders of each anchor, anchors in the order they first appear. */
  method GroupByAnchor(records: seq<Memory>) returns (order: seq<string>, byAnchor: map<string, seq<Memory>>)
    ensures Distinct(order) && forall a :: a in order <==> a in byAnchor
    ensures forall a, q :: a in byAnchor ==> (q in byAnchor[a] <==> q in records && Holds(q, a))
    ensures forall a :: a in byAnchor ==> byAnchor[a] != []
    ensures forall q :: q in records && Holds(q, q.anchor) ==> q.anchor in byAnchor
  {
    order, byAnchor := [], map[];
    for i := 0 to |records|
      invariant Distinct(order) && forall a :: a in order <==> a in byAnchor
      invariant forall a, q :: a in byAnchor ==> (q in byAnchor[a] <==> q in records[..i] && Holds(q, a))
      invariant forall a :: a in byAnchor ==> byAnchor[a] != []
      invariant forall q :: q in records[..i] && Holds(q, q.anchor) ==> q.anchor in byAnchor
    {
      var item := records[i];
      assert records[..i + 1] == records[..i] + [item];
      if Holds(item, item.anchor) {
        if item.anchor in byAnchor {
          byAnchor := byAnchor[item.anchor := byAnchor[item.anchor] + [item]];
        } else {
          order, byAnchor := order + [item.anchor], byAnchor[item.anchor := [item]];
        }
      }
    }
    assert records[..|records|] == records;
  }

  /** The identifiers protected when the survivors of these anchors have been added. */
  ghost predicate ProtectedSoFar(records: seq<Memory>, policy: Policy, anchors: seq<string>, ids: set<string>) {
    && (forall id :: id in ids ==> exists r :: r in records && r.id == id)
    && forall r :: r in records ==>
         (r.id in ids <==> Guarded(r, policy) || (Survivor(records, policy, r) && r.anchor in anchors))
  }

  lemma AddSurvivor(records: seq<Memory>, policy: Policy, anchors: seq<string>, ids: set<string>,
                    anchor: string, group: seq<Memory>, best: Memory)
    requires UniqueIds(records) && ProtectedSoFar(records, policy, anchors, ids) && anchor !in anchors
    requires forall q :: q in group <==> q in records && Holds(q, anchor)
    requires best in group && forall q :: q in group ==> Preferred(q, best)
    requires forall q :: q in group ==> q.id !in ids
    ensures ProtectedSoFar(records, policy, anchors + [anchor], ids + {best.id})
  {
    assert Survivor(records, policy, best);
    forall r | r in records
      ensures r.id in ids + {best.id} <==>
                Guarded(r, policy) || (Survivor(records, policy, r) && r.anchor in anchors + [anchor])
    {
      if Survivor(records, policy, r) && r.anchor == anchor {
        PreferredIsTotal(r, best);
        assert Preferred(r, best) && Preferred(best, r);
      }
    }
  }

  lemma SkipAnchor(records: seq<Memory>, policy: Policy, anchors: seq<string>, ids: set<string>, anchor: string,
                   guard: Memory)
    requires ProtectedSoFar(records, policy, anchors, ids) && anchor !in anchors
    requires guard in records && Holds(guard, anchor) && guard.id in ids
    ensures ProtectedSoFar(records, policy, anchors + [anchor], ids)
  {
    assert Guarded(guard, policy);
  }

  method FindProtected(records: seq<Memory>, policy: Policy) returns (ids: set<string>)
    requires UniqueIds(records)
    ensures ids == set r | r in records && Protected(records, policy, r) :: r.id
  {
    ids := set r | r in records && Guarded(r, policy) :: r.id;
    if policy.preserveAnchors {
      var order, byAnchor := GroupByAnchor(records);
      for j := 0 to |order|
        invariant ProtectedSoFar(records, policy, order[..j], ids)
      {
        var group := byAnchor[order[j]];
        assert order[..j + 1] == order[..j] + [order[j]];
        if exists q: Memory :: q in group && q.id in ids {
          ghost var q: Memory :| q in group && q.id in ids;
          SkipAnchor(records, policy, order[..j], ids, order[j], q);
        } else {
          var best := MostPreferred(group);
          AddSurvivor(records, policy, order[..j], ids, order[j], group, best);
          ids := ids + {best.id};
        }
      }
      assert order[..|order|] == order;
    }
  }

  // ---- the exact decision ----

  predicate IsActive(r: Memory) { r.active }
  predicate IsValid(r: Memory) { r.sourceValid }
  predicate IsEpisodic(r: Memory) { r.retention.Episodic? }
  predicate IsOther(r: Memory) { !r.retention.Episodic? }

  function Active(records: seq<Memory>): seq<Memory> { Select(records, IsActive) }
  function Valid(active: seq<Memory>): seq<Memory> { Select(active, IsValid) }

  function InvalidIds(active: seq<Memory>): (ids: seq<string>)
    ensures forall id :: id in ids <==> exists r :: r in active && !r.sourceValid && r.id == id
    ensures Distinct(ids)
  {
    StrLeqIsTotalOrder();
    SortSet(set r | r in active && !r.sourceValid :: r.id, StrLeq)
  }

  /** Ascending utility, then identifier. */
  function ByUtility(utility: Memory -> real): (Memory, Memory) -> bool {
    (a: Memory, b: Memory) => utility(a) < utility(b) || (utility(a) == utility(b) && StrLeq(a.id, b.id))
  }

  lemma ByUtilitySorts(utility: Memory -> real)
    ensures TotalPreorder(ByUtility(utility))
  {
    var leq := ByUtility(utility);
    forall x, y, z | leq(x, y) && leq(y, z) ensures leq(x, z) {
      if utility(x) == utility(y) == utility(z) { StrLeqTransitive(x.id, y.id, z.id); }
    }
    forall x, y ensures leq(x, y) || leq(y, x) {
      StrLeqConnected(x.id, y.id);
    }
  }

  function Evictable(active: seq<Memory>, policy: Policy): Memory -> bool {
    (r: Memory) => r.sourceValid && !Protected(active, policy, r)
  }

  /** Who may be evicted, cheapest first. */
  function Candidates(active: seq<Memory>, policy: Policy, utility: Memory -> real): seq<Memory> {
    Sort(Select(active, Evictable(active, policy)), ByUtility(utility))
  }

  /** With so many valid records of that total size, the incoming one fits once the first k
      candidates are gone. */
  predicate FitsAfter(count: nat, chars: nat, cs: seq<Memory>, k: nat, incoming: Memory, policy: Policy)
    requires k <= |cs|
  {
    count - k + 1 <= policy.maxRecords && chars - Sum(cs, k) + incoming.Chars() <= policy.maxChars
  }

  /** The shortest prefix of the candidates, from length k on, whose removal makes room. */
  function FirstFit(count: nat, chars: nat, cs: seq<Memory>, k: nat, incoming: Memory, policy: Policy): (r: Option<nat>)
    requires k <= |cs|
    ensures r.Some? ==> k <= r.value <= |cs| && FitsAfter(count, chars, cs, r.value, incoming, policy)
    ensures forall j :: k <= j <= |cs| && (r.Some? ==> j < r.value) ==>
              !FitsAfter(count, chars, cs, j, incoming, policy)
    decreases |cs| - k
  {
    if FitsAfter(count, chars, cs, k, incoming, policy) then Some(k)
    else if k == |cs| then None
    else FirstFit(count, chars, cs, k + 1, incoming, policy)
  }

  function Min(a: nat, b: nat): nat { if a < b then a else b }
  function Max(a: nat, b: nat): nat { if a < b then b else a }

  /** How many episodic records a compaction must take: two when the record limit presses. */
  function Minimum(active: seq<Memory>, policy: Policy): nat {
    if |active| + 1 > policy.maxRecords then 2 else 1
  }

  function Refuse(active: seq<Memory>, reason: Reason, compact: seq<string>, protectedIds: seq<string>): Decision {
    Decision(false, reason, [], compact, protectedIds, |active|, Total(active))
  }

  function ProtectedIds(active: seq<Memory>, policy: Policy): seq<string> {
    StrLeqIsTotalOrder();
    SortSet(set r | r in active && Protected(active, policy, r) :: r.id, StrLeq)
  }

  /** The verdict when k is the first fit, or there is none. */
  function Verdict(active: seq<Memory>, policy: Policy, cs: seq<Memory>, guards: seq<string>, k: nat, fits: bool,
                   records: int, chars: int): Decision
    requires k <= |cs|
  {
    if !fits then Refuse(active, ProtectedCapacityExhausted, [], guards) else
      var e, all, minimum := |SelectUpTo(cs, IsEpisodic, k)|, Ids(Select(cs, IsEpisodic)), Minimum(active, policy);
      if e == 0 then
        var retire := InvalidIds(active) + Ids(cs[..k]);
        Decision(true, if retire == [] then Fits else RetireInvalidOrLowerUtility, retire, [], guards, records, chars)
      else if |all| < minimum then Refuse(active, ProtectedCapacityExhausted, [], guards)
      else Refuse(active, CheckpointCompactionRequired,
                  all[..Min(|all|, Min(Max(e, minimum), policy.batch))], guards)
  }

  /** What the plan decides once the incoming record is acceptable at all. */
  function Decide(active: seq<Memory>, incoming: Memory, policy: Policy, utility: Memory -> real): Decision {
    var cs, guards := Candidates(active, policy, utility), ProtectedIds(active, policy);
    var count, chars := |Valid(active)|, Total(Valid(active));
    match FirstFit(count, chars, cs, 0, incoming, policy)
    case None => Verdict(active, policy, cs, guards, |cs|, false, 0, 0)
    case Some(k) => Verdict(active, policy, cs, guards, k, true, count - k + 1, chars - Sum(cs, k) + incoming.Chars())
  }

  function PlanOf(records: seq<Memory>, incoming: Memory, policy: Policy, now: int, utility: Memory -> real): Plan {
    var active := Active(records);
    if now < 0 then NegativeClock
    else if |IdSet(active)| != |active| then DuplicateIds
    else if incoming.id in IdSet(active) then IncomingExists
    else Planned(
      if !incoming.sourceValid then Refuse(active, IncomingSourceInvalid, [], [])
      else if !incoming.active then Refuse(active, IncomingNotActive, [], [])
      else if incoming.Chars() > policy.maxChars then Refuse(active, IncomingExceedsCapacity, [], [])
      else Decide(active, incoming, policy, utility))
  }

  // ---- the planner ----

  function IdsUpTo(xs: seq<Memory>, n: nat): (ids: set<string>)
    requires n <= |xs|
  {
    set i | 0 <= i < n :: xs[i].id
  }

  lemma {:induction false} CountUpTo(xs: seq<Memory>, n: nat)
    requires n <= |xs|
    ensures |IdsUpTo(xs, n)| <= n
    ensures |IdsUpTo(xs, n)| == n <==> forall i, j :: 0 <= i < j < n ==> xs[i].id != xs[j].id
  {
    if n > 0 {
      CountUpTo(xs, n - 1);
      var x := xs[n - 1].id;
      assert IdsUpTo(xs, n) == IdsUpTo(xs, n - 1) + {x};
      if x in IdsUpTo(xs, n - 1) {
        assert IdsUpTo(xs, n) == IdsUpTo(xs, n - 1);
        var i :| 0 <= i < n - 1 && xs[i].id == x;
      }
    }
  }

  lemma CountedIdsAreUnique(xs: seq<Memory>)
    ensures |IdSet(xs)| == |xs| <==> UniqueIds(xs)
  {
    CountUpTo(xs, |xs|);
    assert IdSet(xs) == IdsUpTo(xs, |xs|);
  }

  lemma CandidateFacts(active: seq<Memory>, policy: Policy, utility: Memory -> real)
    requires UniqueIds(active)
    ensures var cs := Candidates(active, policy, utility);
            && Distinct(cs) && UniqueIds(cs) && Sorted(cs, ByUtility(utility))
            && forall r :: r in cs <==> r in active && r.sourceValid && !Protected(active, policy, r)
  {
    var keep := Evictable(active, policy);
    var xs := Select(active, keep);
    assert Distinct(active);
    SelectDistinct(active, keep, |active|);
    InSelect(active, keep);
    ByUtilitySorts(utility);
    SortCorrect(xs, ByUtility(utility));
    SortElements(xs, ByUtility(utility));
    UniqueWithin(Sort(xs, ByUtility(utility)), active);
  }

  lemma UniqueWithin(xs: seq<Memory>, active: seq<Memory>)
    requires UniqueIds(active) && Distinct(xs) && forall r :: r in xs ==> r in active
    ensures UniqueIds(xs)
  {
    forall i, j | 0 <= i < j < |xs| ensures xs[i].id != xs[j].id {
      assert xs[i] in active && xs[j] in active;
    }
  }

  lemma ValidFacts(active: seq<Memory>)
    requires UniqueIds(active)
    ensures Distinct(Valid(active)) && UniqueIds(Valid(active))
    ensures |IdSet(Valid(active))| == |Valid(active)|
    ensures forall r :: r in Valid(active) <==> r in active && r.sourceValid
  {
    assert Distinct(active);
    SelectDistinct(active, IsValid, |active|);
    InSelect(active, IsValid);
    UniqueWithin(Valid(active), active);
    CountedIdsAreUnique(Valid(active));
  }

  /** A prefix without episodic records is retired whole. */
  lemma {:induction false} AllOthers(xs: seq<Memory>, n: nat)
    requires n <= |xs| && SelectUpTo(xs, IsEpisodic, n) == []
    ensures SelectUpTo(xs, IsOther, n) == xs[..n]
  {
    if n > 0 {
      AllOthers(xs, n - 1);
      assert xs[..n] == xs[..n - 1] + [xs[n - 1]];
    }
  }

  lemma EpisodicUnique(cs: seq<Memory>)
    requires UniqueIds(cs)
    ensures UniqueIds(Select(cs, IsEpisodic))
  {
    assert Distinct(cs);
    SelectDistinct(cs, IsEpisodic, |cs|);
    InSelect(cs, IsEpisodic);
    UniqueWithin(Select(cs, IsEpisodic), cs);
  }

  lemma OnlyAt(xs: seq<Memory>, m: nat, n: nat)
    requires UniqueIds(xs) && m < |xs| && n <= |xs|
    ensures xs[m].id in Ids(xs)[..n] <==> m < n
  {
    if m < n { assert Ids(xs)[..n][m] == xs[m].id; }
  }

  /** The second pass over the candidates: it tops the compactions up to the minimum. */
  method TopUp(cs: seq<Memory>, e: nat, minimum: nat) returns (compactions: seq<string>)
    requires UniqueIds(cs) && e <= |Select(cs, IsEpisodic)| && e < minimum
    ensures compactions == Ids(Select(cs, IsEpisodic))[..Min(|Select(cs, IsEpisodic)|, minimum)]
  {
    ghost var all := Select(cs, IsEpisodic);
    EpisodicUnique(cs);
    compactions := Ids(Select(cs, IsEpisodic))[..e];
    for j := 0 to |cs|
      invariant |compactions| < minimum && |compactions| == Max(e, |SelectUpTo(cs, IsEpisodic, j)|) <= |all|
      invariant compactions == Ids(all)[..|compactions|]
    {
      if cs[j].retention.Episodic? {
        ghost var m := |SelectUpTo(cs, IsEpisodic, j)|;
        SelectGrows(cs, IsEpisodic, j + 1, |cs|);
        assert SelectUpTo(cs, IsEpisodic, j + 1)[m] == cs[j] && all[m] == cs[j];
        OnlyAt(all, m, |compactions|);
        if cs[j].id !in compactions {
          compactions := compactions + [cs[j].id];
          assert compactions == Ids(all)[..m + 1];
          if |compactions| >= minimum { return; }
        }
      }
    }
  }

  method PlanLongTermRetention(records: seq<Memory>, incoming: Memory, policy: Policy, now: int,
                               utility: Memory -> real)
    returns (r: Plan)
    requires policy.Valid()
    ensures r == PlanOf(records, incoming, policy, now, utility)
  {
    if now < 0 { return NegativeClock; }
    var active := Active(records);
    if |IdSet(active)| != |active| { return DuplicateIds; }
    CountedIdsAreUnique(active);
    if incoming.id in IdSet(active) { return IncomingExists; }
    if !incoming.sourceValid { return Planned(Refuse(active, IncomingSourceInvalid, [], [])); }
    if !incoming.active { return Planned(Refuse(active, IncomingNotActive, [], [])); }
    if incoming.Chars() > policy.maxChars { return Planned(Refuse(active, IncomingExceedsCapacity, [], [])); }
    var d := DecideByLoop(active, incoming, policy, utility);
    return Planned(d);
  }

  method DecideByLoop(active: seq<Memory>, incoming: Memory, policy: Policy, utility: Memory -> real)
    returns (d: Decision)
    requires policy.Valid() && UniqueIds(active)
    ensures d == Decide(active, incoming, policy, utility)
  {
    var guards := SortProtected(active, policy);
    var cs, valid := Candidates(active, policy, utility), Valid(active);
    CandidatesAreValid(active, policy, utility);
    var k, records, chars, retirements, compactions := Evict(IdSet(valid), Total(valid), InvalidIds(active), cs,
                                                             incoming, policy);
    d := Conclude(active, incoming, policy, cs, k, records, chars, retirements, compactions, guards);
  }

  method SortProtected(active: seq<Memory>, policy: Policy) returns (guards: seq<string>)
    requires UniqueIds(active)
    ensures guards == ProtectedIds(active, policy)
  {
    var ids := FindProtected(active, policy);
    StrLeqIsTotalOrder();
    guards := SortSet(ids, StrLeq);
  }

  lemma CandidatesAreValid(active: seq<Memory>, policy: Policy, utility: Memory -> real)
    requires UniqueIds(active)
    ensures var cs, valid := Candidates(active, policy, utility), Valid(active);
            UniqueIds(cs) && |IdSet(valid)| == |valid| && forall j :: 0 <= j < |cs| ==> cs[j].id in IdSet(valid)
  {
    CandidateFacts(active, policy, utility);
    ValidFacts(active);
    var cs := Candidates(active, policy, utility);
    assert forall j :: 0 <= j < |cs| ==> cs[j] in Valid(active);
  }

  lemma StepIds(cs: seq<Memory>, keep: Memory -> bool, k: nat)
    requires k < |cs|
    ensures Ids(SelectUpTo(cs, keep, k + 1)) == Ids(SelectUpTo(cs, keep, k)) + (if keep(cs[k]) then [cs[k].id] else [])
  {
  }

  lemma Drop(cs: seq<Memory>, k: nat, retained: set<string>)
    requires UniqueIds(cs) && k < |cs| && forall j :: k <= j < |cs| ==> cs[j].id in retained
    ensures |retained - {cs[k].id}| == |retained| - 1
    ensures forall j :: k < j < |cs| ==> cs[j].id in retained - {cs[k].id}
  {
  }

  /** The greedy loop: candidates leave, cheapest first, until the incoming record fits. */
  method Evict(valid: set<string>, total: nat, invalid: seq<string>, cs: seq<Memory>, incoming: Memory, policy: Policy)
    returns (k: nat, records: int, chars: int, retirements: seq<string>, compactions: seq<string>)
    requires UniqueIds(cs) && forall j :: 0 <= j < |cs| ==> cs[j].id in valid
    ensures k <= |cs| && records == |valid| - k && chars == total - Sum(cs, k)
    ensures retirements == invalid + Ids(SelectUpTo(cs, IsOther, k))
    ensures compactions == Ids(SelectUpTo(cs, IsEpisodic, k))
    ensures FirstFit(|valid|, total, cs, 0, incoming, policy) ==
            if FitsAfter(|valid|, total, cs, k, incoming, policy) then Some(k) else None
    ensures FitsAfter(|valid|, total, cs, k, incoming, policy) || k == |cs|
  {
    var retained := valid;
    chars, retirements, compactions, k := total, invalid, [], 0;
    while k < |cs| && !(|retained| + 1 <= policy.maxRecords && chars + incoming.Chars() <= policy.maxChars)
      invariant k <= |cs|
      invariant |retained| == |valid| - k && chars == total - Sum(cs, k)
      invariant forall j :: k <= j < |cs| ==> cs[j].id in retained
      invariant retirements == invalid + Ids(SelectUpTo(cs, IsOther, k))
      invariant compactions == Ids(SelectUpTo(cs, IsEpisodic, k))
      invariant forall j :: 0 <= j < k ==> !FitsAfter(|valid|, total, cs, j, incoming, policy)
    {
      StepIds(cs, IsEpisodic, k);
      StepIds(cs, IsOther, k);
      Drop(cs, k, retained);
      if cs[k].retention.Episodic? {
        compactions := compactions + [cs[k].id];
      } else {
        retirements := retirements + [cs[k].id];
      }
      retained := retained - {cs[k].id};
      chars := chars - cs[k].Chars();
      k := k + 1;
    }
    records := |retained|;
    FirstFitIs(|valid|, total, cs, k, incoming, policy);
  }

  lemma FirstFitIs(count: nat, chars: nat, cs: seq<Memory>, k: nat, incoming: Memory, policy: Policy)
    requires k <= |cs| && forall j :: 0 <= j < k ==> !FitsAfter(count, chars, cs, j, incoming, policy)
    requires FitsAfter(count, chars, cs, k, incoming, policy) || k == |cs|
    ensures FirstFit(count, chars, cs, 0, incoming, policy) == if FitsAfter(count, chars, cs, k, incoming, policy)
                                                               then Some(k) else None
  {
    var r := FirstFit(count, chars, cs, 0, incoming, policy);
  }

  /** What the planner makes of the loop's result. */
  method Conclude(active: seq<Memory>, incoming: Memory, policy: Policy, cs: seq<Memory>, k: nat, records: int,
                  chars: int,
                  retirements: seq<string>, compactions: seq<string>, guards: seq<string>) returns (d: Decision)
    requires policy.Valid() && UniqueIds(cs) && k <= |cs|
    requires retirements == InvalidIds(active) + Ids(SelectUpTo(cs, IsOther, k))
    requires compactions == Ids(SelectUpTo(cs, IsEpisodic, k))
    ensures d == Verdict(active, policy, cs, guards, k,
                         records + 1 <= policy.maxRecords && chars + incoming.Chars() <= policy.maxChars,
                         records + 1, chars + incoming.Chars())
  {
    if records + 1 > policy.maxRecords || chars + incoming.Chars() > policy.maxChars {
      return Refuse(active, ProtectedCapacityExhausted, [], guards);
    }
    SelectGrows(cs, IsEpisodic, k, |cs|);
    var chosen := compactions;
    if chosen != [] {
      var minimum := Minimum(active, policy);
      ghost var e, all := |chosen|, Ids(Select(cs, IsEpisodic));
      assert chosen == all[..e];
      if |chosen| < minimum { chosen := TopUp(cs, |chosen|, minimum); }
      if |chosen| < minimum { return Refuse(active, ProtectedCapacityExhausted, [], guards); }
      assert chosen == all[..Max(e, minimum)];
      return Refuse(active, CheckpointCompactionRequired, chosen[..Min(|chosen|, policy.batch)], guards);
    }
    AllOthers(cs, k);
    return Decision(true, if retirements == [] then Fits else RetireInvalidOrLowerUtility, retirements, [], guards,
                    records + 1, chars + incoming.Chars());
  }
}
