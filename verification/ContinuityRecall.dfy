/** The facts that open a new session, chosen within a prompt budget. */
module ContinuityRecall {
  import opened Ordering
  import opened Text
  import opened Continuity
  import opened RetentionRuns

  datatype Budget = Budget(maxItems: nat, maxChars: nat, includeDurable: bool) {
    predicate Valid() { maxItems >= 1 && maxChars >= 1 }
  }

  datatype Selection = Selection(selected: seq<Memory>, omittedCore: seq<string>, contextChars: nat,
                                 requiresCompaction: bool)

  function Eligible(budget: Budget): Memory -> bool {
    (r: Memory) => r.active && r.sourceValid && (r.retention.Core? || (budget.includeDurable && r.retention.Durable?))
  }

  /** Pinned first, then core before durable, then what was important, trusted and used. */
  predicate Before(a: Memory, b: Memory) {
    if a.pinned != b.pinned then a.pinned
    else if Rank(a.retention) != Rank(b.retention) then Rank(a.retention) > Rank(b.retention)
    else if a.importance != b.importance then a.importance > b.importance
    else if a.confidence != b.confidence then a.confidence > b.confidence
    else if a.useCount != b.useCount then a.useCount > b.useCount
    else if a.lastUsedAt != b.lastUsedAt then a.lastUsedAt > b.lastUsedAt
    else StrLeq(a.id, b.id)
  }

  lemma BeforeSorts()
    ensures TotalPreorder(Before)
  {
    forall x, y, z | Before(x, y) && Before(y, z) ensures Before(x, z) {
      if StrLeq(x.id, y.id) && StrLeq(y.id, z.id) { StrLeqTransitive(x.id, y.id, z.id); }
    }
    forall x, y ensures Before(x, y) || Before(y, x) { StrLeqConnected(x.id, y.id); }
  }

  function Ranked(records: seq<Memory>, budget: Budget): seq<Memory> {
    Sort(Select(records, Eligible(budget)), Before)
  }

  /** The characters that a selection takes in the prompt, separators included. */
  function Width(selected: seq<Memory>): nat {
    if selected == [] then 0 else Total(selected) + |selected| - 1
  }

  predicate Admits(budget: Budget, selected: seq<Memory>, r: Memory) {
    |selected| < budget.maxItems
    && Width(selected) + (if selected == [] then 0 else 1) + r.Chars() <= budget.maxChars
  }

  /** What the first n ranked records contribute. */
  function Chosen(ranked: seq<Memory>, budget: Budget, n: nat): seq<Memory>
    requires n <= |ranked|
  {
    if n == 0 then [] else
      var before := Chosen(ranked, budget, n - 1);
      if Admits(budget, before, ranked[n - 1]) then before + [ranked[n - 1]] else before
  }

  function OmittedCore(ranked: seq<Memory>, selected: seq<Memory>): seq<string> {
    Ids(Select(ranked, (r: Memory) => r.retention.Core? && r.id !in IdSet(selected)))
  }

  function SelectionOf(records: seq<Memory>, budget: Budget): Selection {
    var ranked := Ranked(records, budget);
    var selected := Chosen(ranked, budget, |ranked|);
    var omitted := OmittedCore(ranked, selected);
    Selection(selected, omitted, Width(selected), omitted != [])
  }

  method SelectContinuityContext(records: seq<Memory>, budget: Budget) returns (s: Selection)
    requires budget.Valid()
    ensures s == SelectionOf(records, budget)
  {
    var ranked := Ranked(records, budget);
    var selected: seq<Memory> := [];
    var contextChars := 0;
    for i := 0 to |ranked|
      invariant selected == Chosen(ranked, budget, i) && contextChars == Width(selected)
    {
      var item := ranked[i];
      var separator := if selected == [] then 0 else 1;
      if |selected| >= budget.maxItems { continue; }
      if contextChars + separator + item.Chars() > budget.maxChars { continue; }
      AppendTotal(selected, item);
      selected := selected + [item];
      contextChars := contextChars + separator + item.Chars();
    }
    var omitted := OmittedCore(ranked, selected);
    return Selection(selected, omitted, contextChars, omitted != []);
  }

  lemma {:induction false} ChosenFits(ranked: seq<Memory>, budget: Budget, n: nat)
    requires n <= |ranked|
    ensures var s := Chosen(ranked, budget, n);
            && |s| <= budget.maxItems && Width(s) <= budget.maxChars
            && forall r :: r in s ==> r in ranked[..n]
  {
    if n > 0 {
      ChosenFits(ranked, budget, n - 1);
      AppendTotal(Chosen(ranked, budget, n - 1), ranked[n - 1]);
      assert ranked[..n] == ranked[..n - 1] + [ranked[n - 1]];
    }
  }

  lemma RankedFacts(records: seq<Memory>, budget: Budget)
    ensures forall r :: r in Ranked(records, budget) <==> r in records && Eligible(budget)(r)
    ensures Sorted(Ranked(records, budget), Before)
  {
    BeforeSorts();
    InSelect(records, Eligible(budget));
    SortCorrect(Select(records, Eligible(budget)), Before);
    SortElements(Select(records, Eligible(budget)), Before);
  }

  lemma SelectedAreEligible(records: seq<Memory>, budget: Budget)
    ensures var s := SelectionOf(records, budget);
            && |s.selected| <= budget.maxItems && s.contextChars <= budget.maxChars
            && forall r :: r in s.selected ==> r in records && Eligible(budget)(r)
  {
    var ranked := Ranked(records, budget);
    RankedFacts(records, budget);
    ChosenFits(ranked, budget, |ranked|);
    assert ranked[..|ranked|] == ranked;
  }

  /** The selection keeps both budgets, holds only eligible facts, and reports a core fact missing
      exactly when some core fact's identifier is not among the selected. */
  lemma SelectionIsHonest(records: seq<Memory>, budget: Budget)
    ensures var s := SelectionOf(records, budget);
            && |s.selected| <= budget.maxItems && s.contextChars <= budget.maxChars
            && (forall r :: r in s.selected ==> r in records && Eligible(budget)(r))
            && (s.requiresCompaction <==>
                  exists r :: r in records && r.active && r.sourceValid && r.retention.Core?
                              && r.id !in IdSet(s.selected))
  {
    var ranked := Ranked(records, budget);
    RankedFacts(records, budget);
    SelectedAreEligible(records, budget);
    var selected := Chosen(ranked, budget, |ranked|);
    var missing := (r: Memory) => r.retention.Core? && r.id !in IdSet(selected);
    InSelect(ranked, missing);
    var s := SelectionOf(records, budget);
    assert s.omittedCore == Ids(Select(ranked, missing));
    if s.omittedCore != [] { assert Select(ranked, missing)[0] in ranked; }
    forall r | r in records && r.active && r.sourceValid && r.retention.Core? && r.id !in IdSet(selected)
      ensures s.omittedCore != []
    {
      assert r in Select(ranked, missing);
    }
  }

  // ---- dropped silently, or not ----

  predicate CoreFact(r: Memory) { r.active && r.sourceValid && r.retention.Core? }

  /** Every core fact is selected or listed among the omitted ones. */
  ghost predicate Complete(records: seq<Memory>, budget: Budget) {
    var s := SelectionOf(records, budget);
    forall r :: r in records && CoreFact(r) ==> r in s.selected || r.id in s.omittedCore
  }

  lemma OmittedAreListed(ranked: seq<Memory>, selected: seq<Memory>, r: Memory)
    requires r in ranked && r.retention.Core?
    ensures r.id in OmittedCore(ranked, selected) <==> r.id !in IdSet(selected)
  {
    var missing := (x: Memory) => x.retention.Core? && x.id !in IdSet(selected);
    var omitted := Select(ranked, missing);
    InSelect(ranked, missing);
    if r.id !in IdSet(selected) {
      var i :| 0 <= i < |omitted| && omitted[i] == r;
      assert Ids(omitted)[i] == r.id;
    }
    if r.id in Ids(omitted) {
      var i :| 0 <= i < |Ids(omitted)| && Ids(omitted)[i] == r.id;
      assert omitted[i] in omitted;
    }
  }

  /** What is considered later meets a selection that leaves no more room. */
  lemma {:induction false} ChosenGrows(ranked: seq<Memory>, budget: Budget, m: nat, n: nat)
    requires m <= n <= |ranked|
    ensures Chosen(ranked, budget, m) <= Chosen(ranked, budget, n)
    ensures Width(Chosen(ranked, budget, m)) <= Width(Chosen(ranked, budget, n))
    ensures forall x :: x in Chosen(ranked, budget, m) ==> x in Chosen(ranked, budget, n)
  {
    if m < n {
      ChosenGrows(ranked, budget, m, n - 1);
      AppendTotal(Chosen(ranked, budget, n - 1), ranked[n - 1]);
    }
  }

  lemma {:induction false} ChosenWhere(ranked: seq<Memory>, budget: Budget, n: nat, x: Memory) returns (i: nat)
    requires n <= |ranked| && x in Chosen(ranked, budget, n)
    ensures i < n && ranked[i] == x && Admits(budget, Chosen(ranked, budget, i), x)
  {
    if x in Chosen(ranked, budget, n - 1) { i := ChosenWhere(ranked, budget, n - 1, x); } else { i := n - 1; }
  }

  /** Nothing considered later that is no shorter gets the place of what was turned down. */
  lemma TurnedDown(ranked: seq<Memory>, budget: Budget, j: nat, i: nat)
    requires j < i < |ranked| && ranked[j].Chars() <= ranked[i].Chars()
    requires !Admits(budget, Chosen(ranked, budget, j), ranked[j])
    ensures !Admits(budget, Chosen(ranked, budget, i), ranked[i])
  {
    ChosenGrows(ranked, budget, j, i);
  }

  /** No other record with its identifier comes earlier or is shorter. */
  ghost predicate NoRival(ranked: seq<Memory>, r: Memory) {
    forall i, j :: 0 <= i < |ranked| && 0 <= j < |ranked| ==>
      (ranked[j] == r && ranked[i].id == r.id && ranked[i] != r ==> j < i && r.Chars() <= ranked[i].Chars())
  }

  lemma RivalIsTurnedDown(ranked: seq<Memory>, budget: Budget, j: nat, x: Memory)
    requires j < |ranked| && NoRival(ranked, ranked[j]) && x.id == ranked[j].id && x != ranked[j]
    requires ranked[j] !in Chosen(ranked, budget, |ranked|)
    ensures x !in Chosen(ranked, budget, |ranked|)
  {
    if x in Chosen(ranked, budget, |ranked|) {
      var i := ChosenWhere(ranked, budget, |ranked|, x);
      ChosenGrows(ranked, budget, j + 1, |ranked|);
      TurnedDown(ranked, budget, j, i);
    }
  }

  /** With any budget: a core fact is selected or listed, as long as no other eligible record with its
      identifier comes earlier or is shorter. */
  lemma NoCoreDroppedSilently(records: seq<Memory>, budget: Budget, r: Memory)
    requires r in records && CoreFact(r) && NoRival(Ranked(records, budget), r)
    ensures r in SelectionOf(records, budget).selected || r.id in SelectionOf(records, budget).omittedCore
  {
    var ranked, s := Ranked(records, budget), SelectionOf(records, budget);
    RankedFacts(records, budget);
    OmittedAreListed(ranked, s.selected, r);
    var j :| 0 <= j < |ranked| && ranked[j] == r;
    if r !in s.selected && r.id in IdSet(s.selected) {
      var k :| 0 <= k < |s.selected| && s.selected[k].id == r.id;
      RivalIsTurnedDown(ranked, budget, j, s.selected[k]);
    }
  }

  // ---- room for every text ----

  function Ample(ranked: seq<Memory>): nat { Total(ranked) + |ranked| }

  lemma {:induction false} TotalOfPrefix(ranked: seq<Memory>, n: nat)
    requires n <= |ranked|
    ensures Total(ranked[..n]) <= Total(ranked)
    decreases |ranked| - n
  {
    if n < |ranked| {
      AppendTotal(ranked[..n], ranked[n]);
      assert ranked[..n + 1] == ranked[..n] + [ranked[n]];
      TotalOfPrefix(ranked, n + 1);
    } else {
      assert ranked[..n] == ranked;
    }
  }

  /** With room for every text the first ones are chosen, up to the number of items. */
  lemma {:induction false} ChosenOfAmple(ranked: seq<Memory>, budget: Budget, n: nat)
    requires n <= |ranked| && budget.maxChars >= Ample(ranked)
    ensures Chosen(ranked, budget, n) == ranked[..if n <= budget.maxItems then n else budget.maxItems]
  {
    if n > 0 {
      ChosenOfAmple(ranked, budget, n - 1);
      if n <= budget.maxItems {
        AppendTotal(ranked[..n - 1], ranked[n - 1]);
        assert ranked[..n] == ranked[..n - 1] + [ranked[n - 1]];
        TotalOfPrefix(ranked, n);
      }
    }
  }

  /** Every core fact comes before all other records with its identifier. */
  ghost predicate NoEarlierNamesake(ranked: seq<Memory>) {
    forall i, j :: 0 <= i < j < |ranked| && ranked[j].retention.Core? && ranked[i].id == ranked[j].id ==>
                     ranked[j] in ranked[..j]
  }

  /** Every budget with room for every text. */
  ghost predicate AlwaysComplete(records: seq<Memory>, includeDurable: bool) {
    forall maxItems: nat, maxChars: nat ::
      maxItems >= 1 && maxChars >= 1
      && maxChars >= Ample(Ranked(records, Budget(maxItems, maxChars, includeDurable))) ==>
        Complete(records, Budget(maxItems, maxChars, includeDurable))
  }

  lemma CompleteForAmple(records: seq<Memory>, budget: Budget)
    requires budget.maxChars >= Ample(Ranked(records, budget)) && NoEarlierNamesake(Ranked(records, budget))
    ensures Complete(records, budget)
  {
    var ranked, s := Ranked(records, budget), SelectionOf(records, budget);
    RankedFacts(records, budget);
    ChosenOfAmple(ranked, budget, |ranked|);
    forall r | r in records && CoreFact(r) ensures r in s.selected || r.id in s.omittedCore {
      assert r in ranked;
      OmittedAreListed(ranked, s.selected, r);
      var j := FirstOf(ranked, r);
      assert j < |s.selected| ==> s.selected[j] == r;
      assert forall i :: 0 <= i < |s.selected| ==> s.selected[i] == ranked[i];
    }
  }

  lemma {:induction false} FirstOf(ranked: seq<Memory>, r: Memory) returns (j: nat)
    requires r in ranked
    ensures j < |ranked| && ranked[j] == r && r !in ranked[..j]
  {
    var n := |ranked| - 1;
    if r in ranked[..n] {
      j := FirstOf(ranked[..n], r);
      assert ranked[..n][..j] == ranked[..j];
    } else {
      j := n;
    }
  }

  /** A budget of just the records before it leaves a core fact with an earlier namesake out, unreported. */
  lemma DroppedSilently(records: seq<Memory>, budget: Budget, i: nat, j: nat)
    requires var ranked := Ranked(records, budget);
             && i < j < |ranked| && ranked[j].retention.Core?
             && ranked[i].id == ranked[j].id && ranked[j] !in ranked[..j]
             && budget.maxItems == j && budget.maxChars >= Ample(ranked)
    ensures !Complete(records, budget)
  {
    var ranked, s := Ranked(records, budget), SelectionOf(records, budget);
    RankedFacts(records, budget);
    ChosenOfAmple(ranked, budget, |ranked|);
    assert s.selected == ranked[..j];
    assert s.selected[i].id == ranked[j].id;
    assert ranked[j] in ranked;
    OmittedAreListed(ranked, s.selected, ranked[j]);
  }

  /** As long as there is room for every text, no budget drops a core fact silently if and only if every
      core fact comes before all other eligible records with its identifier. */
  lemma CompleteExactly(records: seq<Memory>, includeDurable: bool)
    ensures AlwaysComplete(records, includeDurable) <==>
            NoEarlierNamesake(Ranked(records, Budget(1, 1, includeDurable)))
  {
    var ranked := Ranked(records, Budget(1, 1, includeDurable));
    forall maxItems: nat, maxChars: nat ensures Ranked(records, Budget(maxItems, maxChars, includeDurable)) == ranked {
      SameRanking(records, Budget(maxItems, maxChars, includeDurable), Budget(1, 1, includeDurable));
    }
    if NoEarlierNamesake(ranked) {
      forall maxItems: nat, maxChars: nat | maxItems >= 1 && maxChars >= Ample(ranked)
        ensures Complete(records, Budget(maxItems, maxChars, includeDurable))
      {
        CompleteForAmple(records, Budget(maxItems, maxChars, includeDurable));
      }
    } else {
      var i, j :| 0 <= i < j < |ranked| && ranked[j].retention.Core? && ranked[i].id == ranked[j].id
                  && ranked[j] !in ranked[..j];
      var budget := Budget(j, Ample(ranked), includeDurable);
      assert Ranked(records, budget) == ranked;
      DroppedSilently(records, budget, i, j);
    }
  }

  lemma SameRanking(records: seq<Memory>, a: Budget, b: Budget)
    requires a.includeDurable == b.includeDurable
    ensures Ranked(records, a) == Ranked(records, b)
  {
    SameSelect(records, Eligible(a), Eligible(b), |records|);
  }

  lemma {:induction false} SameSelect(xs: seq<Memory>, p: Memory -> bool, q: Memory -> bool, n: nat)
    requires n <= |xs| && forall x :: p(x) == q(x)
    ensures SelectUpTo(xs, p, n) == SelectUpTo(xs, q, n)
  {
    if n > 0 { SameSelect(xs, p, q, n - 1); }
  }

  lemma {:induction false} OneTakesAll(ranked: seq<Memory>, budget: Budget, n: nat)
    requires 0 < n <= |ranked| && budget.maxItems == 1 && ranked[0].Chars() <= budget.maxChars
    ensures Chosen(ranked, budget, n) == [ranked[0]]
  {
    if n > 1 { OneTakesAll(ranked, budget, n - 1); } else { assert Chosen(ranked, budget, 0) == []; }
  }

  /** Of eligible records that all have one identifier a budget of one item keeps one, and reports none. */
  lemma SharedIdIsSilent(records: seq<Memory>, budget: Budget, a: Memory)
    requires budget.maxItems == 1 && a in records && Eligible(budget)(a)
    requires forall r :: r in records ==> r.id == a.id && r.Chars() <= budget.maxChars
    ensures var s := SelectionOf(records, budget); |s.selected| == 1 && !s.requiresCompaction
  {
    var ranked := Ranked(records, budget);
    RankedFacts(records, budget);
    SelectionIsHonest(records, budget);
    assert a in ranked;
    assert ranked[0] in ranked;
    OneTakesAll(ranked, budget, |ranked|);
    assert SelectionOf(records, budget).selected[0].id == a.id;
  }

  /** The selector does not ask that identifiers be unique, and it matters: of two core records with one
      identifier, a budget of one item drops the second without a report. */
  lemma SharedIdHidesADrop(a: Memory, b: Memory)
    requires a != b && a.id == b.id && a.active && b.active && a.sourceValid && b.sourceValid
    requires a.retention.Core? && b.retention.Core? && a.Chars() >= 1 && a.Chars() == b.Chars()
    ensures var s := SelectionOf([a, b], Budget(1, a.Chars(), true));
            !s.requiresCompaction && |s.selected| == 1
  {
    SharedIdIsSilent([a, b], Budget(1, a.Chars(), true), a);
  }

  /** Where texts do not all fit, a later record can hide the drop as well, if it is shorter. */
  lemma ShorterNamesakeHidesADrop(long: Memory, short: Memory)
    requires CoreFact(long) && CoreFact(short) && long.id == short.id && Before(long, short) && !Before(short, long)
    requires 1 <= short.Chars() < long.Chars()
    ensures var s := SelectionOf([short, long], Budget(2, short.Chars(), true));
            s.selected == [short] && s.omittedCore == []
  {
    var budget := Budget(2, short.Chars(), true);
    BothEligible(short, long, Eligible(budget));
    RanksSecondFirst(short, long, Before);
    var ranked := [long, short];
    assert Ranked([short, long], budget) == ranked;
    assert Chosen(ranked, budget, 0) == [] && Chosen(ranked, budget, 1) == [];
    assert Chosen(ranked, budget, 2) == [] + [short] == [short];
    assert [short][0].id == long.id;
    OmittedAreListed(ranked, [short], long);
    OmittedAreListed(ranked, [short], short);
    NoneOmitted(ranked, [short]);
  }

  lemma FirstIsIn(xs: seq<Memory>)
    ensures xs != [] ==> xs[0] in xs
  {
  }

  lemma NoneOmitted(ranked: seq<Memory>, selected: seq<Memory>)
    requires forall r :: r in ranked ==> r.id in IdSet(selected)
    ensures OmittedCore(ranked, selected) == []
  {
    var missing := (x: Memory) => x.retention.Core? && x.id !in IdSet(selected);
    var omitted := Select(ranked, missing);
    InSelect(ranked, missing);
    FirstIsIn(omitted);
  }

  /** A durable record is considered before a core one if and only if it alone is pinned. */
  lemma CoreFirstUnlessPinned(records: seq<Memory>, budget: Budget, i: nat, j: nat)
    requires i < |Ranked(records, budget)| && j < |Ranked(records, budget)|
    requires Ranked(records, budget)[i].retention.Durable? && Ranked(records, budget)[j].retention.Core?
    ensures i < j <==> Ranked(records, budget)[i].pinned && !Ranked(records, budget)[j].pinned
  {
    var ranked := Ranked(records, budget);
    RankedFacts(records, budget);
    if i < j { assert Before(ranked[i], ranked[j]); }
    if j < i { assert Before(ranked[j], ranked[i]); }
  }

  /** So with room for one, a pinned durable record displaces an unpinned core one. */
  lemma PinnedDurableDisplacesCore(a: Memory, b: Memory)
    requires a.active && b.active && a.sourceValid && b.sourceValid
    requires a.retention.Durable? && a.pinned && b.retention.Core? && !b.pinned
    ensures var budget := Budget(1, a.Chars() + b.Chars() + 1, true);
            Ranked([b, a], budget) == [a, b] && SelectionOf([b, a], budget).selected == [a]
  {
    var budget := Budget(1, a.Chars() + b.Chars() + 1, true);
    BothEligible(b, a, Eligible(budget));
    RanksSecondFirst(b, a, Before);
    OneTakesAll([a, b], budget, 2);
  }

  lemma BothEligible(x: Memory, y: Memory, keep: Memory -> bool)
    requires keep(x) && keep(y)
    ensures Select([x, y], keep) == [x, y]
  {
    assert SelectUpTo([x, y], keep, 1) == [x];
  }

  lemma RanksSecondFirst(x: Memory, y: Memory, before: (Memory, Memory) -> bool)
    requires !before(x, y)
    ensures Sort([x, y], before) == [y, x]
  {
    assert [x, y][1..] == [y] && [y][1..] == [];
    assert Insert(y, [], before) == [y] && Insert(x, [], before) == [x];
    assert Sort([y], before) == [y];
    assert Insert(x, [y], before) == [y] + Insert(x, [], before);
  }
}
