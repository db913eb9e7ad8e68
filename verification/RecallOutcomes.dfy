/** The opening of a session spelt out: the order of the facts, what each meets, and what is reported missing. */
module RecallOutcomes {
  import opened Ordering
  import opened Continuity
  import opened RetentionRuns
  import opened ContinuityRecall

  /** Active, valid, and core, or durable where durable facts are asked for. */
  ghost function Wanted(durable: bool): Memory -> bool {
    (r: Memory) => r.active && r.sourceValid && (r.retention == Core || (durable && r.retention == Durable))
  }

  /** Pinned ones first, then core ones, then by importance, confidence, use and last use, and by identifier. */
  ghost predicate Ahead(a: Memory, b: Memory) {
    || (a.pinned && !b.pinned)
    || (a.pinned == b.pinned &&
        (|| (a.retention == Core && b.retention != Core)
         || (a.retention == b.retention && Weightier(a, b))))
  }

  ghost predicate Weightier(a: Memory, b: Memory) {
    || a.importance > b.importance
    || (a.importance == b.importance && a.confidence > b.confidence)
    || (a.importance == b.importance && a.confidence == b.confidence
        && (|| a.useCount > b.useCount
            || (a.useCount == b.useCount
                && (a.lastUsedAt > b.lastUsedAt || (a.lastUsedAt == b.lastUsedAt && Precedes(a.id, b.id))))))
  }

  /** The texts with one character between them. */
  ghost function PromptText(facts: seq<Memory>): string {
    if facts == [] then "" else if |facts| == 1 then facts[0].text
    else PromptText(facts[..|facts| - 1]) + "\n" + facts[|facts| - 1].text
  }

  /** The fact gets in if there is a place left and the prompt then still fits. */
  ghost predicate GetsIn(budget: Budget, before: seq<Memory>, r: Memory) {
    |before| + 1 <= budget.maxItems && |PromptText(before + [r])| <= budget.maxChars
  }

  /** The selection before each fact and after the last, in order: it takes every fact that gets in. */
  ghost predicate TakesInTurn(ranked: seq<Memory>, budget: Budget, taken: seq<seq<Memory>>) {
    && |taken| == |ranked| + 1 && taken[0] == []
    && forall i {:trigger taken[i + 1]} :: 0 <= i < |ranked| ==>
         taken[i + 1] == if GetsIn(budget, taken[i], ranked[i]) then taken[i] + [ranked[i]] else taken[i]
  }

  ghost function Missing(selected: seq<Memory>): Memory -> bool {
    (r: Memory) => r.retention == Core && forall i :: 0 <= i < |selected| ==> selected[i].id != r.id
  }

  /** What is selected of some facts in this order, and the core facts reported missing. */
  ghost predicate Selects(facts: seq<Memory>, budget: Budget, ranked: seq<Memory>, taken: seq<seq<Memory>>,
                          s: Selection) {
    && multiset(ranked) == multiset(facts) && Sorted(ranked, Ahead)
    && TakesInTurn(ranked, budget, taken) && s.selected == taken[|ranked|]
    && s.contextChars == |PromptText(s.selected)|
    && s.omittedCore == Each(Filter(ranked, Missing(s.selected)), (r: Memory) => r.id)
    && (s.requiresCompaction <==> s.omittedCore != [])
  }

  lemma {:induction false} SelectIsFilter(xs: seq<Memory>, keep: Memory -> bool, wanted: Memory -> bool, n: nat)
    requires n <= |xs| && forall r :: keep(r) <==> wanted(r)
    ensures SelectUpTo(xs, keep, n) == Filter(xs[..n], wanted)
  {
    if n > 0 {
      SelectIsFilter(xs, keep, wanted, n - 1);
      assert xs[..n] == xs[..n - 1] + [xs[n - 1]];
      FilterConcat(xs[..n - 1], [xs[n - 1]], wanted);
      FilterOne(xs[n - 1], wanted);
    }
  }

  lemma {:induction false} WidthExactly(facts: seq<Memory>)
    ensures |PromptText(facts)| == Width(facts)
  {
    if |facts| > 1 {
      var n := |facts| - 1;
      WidthExactly(facts[..n]);
      AppendTotal(facts[..n], facts[n]);
      assert facts == facts[..n] + [facts[n]];
    } else if |facts| == 1 {
      AppendTotal([], facts[0]);
      assert facts == [] + [facts[0]];
    }
  }

  lemma AdmitsExactly(budget: Budget, before: seq<Memory>, r: Memory)
    ensures Admits(budget, before, r) <==> GetsIn(budget, before, r)
  {
    WidthExactly(before + [r]);
    AppendTotal(before, r);
  }

  lemma {:induction false} TakenInTurn(ranked: seq<Memory>, budget: Budget, n: nat) returns (taken: seq<seq<Memory>>)
    requires n <= |ranked|
    ensures TakesInTurn(ranked[..n], budget, taken) && taken[n] == Chosen(ranked, budget, n)
  {
    if n == 0 {
      taken := [[]];
    } else {
      var before := TakenInTurn(ranked, budget, n - 1);
      var s := Chosen(ranked, budget, n - 1);
      AdmitsExactly(budget, s, ranked[n - 1]);
      taken := before + [Chosen(ranked, budget, n)];
      OneMoreTaken(ranked, budget, n - 1, before, Chosen(ranked, budget, n));
    }
  }

  lemma OneMoreTaken(ranked: seq<Memory>, budget: Budget, n: nat, before: seq<seq<Memory>>, next: seq<Memory>)
    requires n < |ranked| && TakesInTurn(ranked[..n], budget, before)
    requires next == if GetsIn(budget, before[n], ranked[n]) then before[n] + [ranked[n]] else before[n]
    ensures TakesInTurn(ranked[..n + 1], budget, before + [next])
  {
    var taken := before + [next];
    forall i | 0 <= i < n + 1
      ensures taken[i + 1] == if GetsIn(budget, taken[i], ranked[..n + 1][i]) then taken[i] + [ranked[..n + 1][i]]
                              else taken[i]
    {
      assert taken[i] == before[i] && ranked[..n + 1][i] == ranked[i];
      if i < n { assert taken[i + 1] == before[i + 1] && ranked[..n][i] == ranked[i]; }
    }
  }

  lemma AheadExactly(a: Memory, b: Memory)
    requires a.retention in {Core, Durable} && b.retention in {Core, Durable} && Before(a, b)
    ensures Ahead(a, b)
  {
    StrLeqExactly(a.id, b.id);
  }

  lemma RankedExactly(records: seq<Memory>, budget: Budget)
    ensures var ranked := Ranked(records, budget);
            multiset(ranked) == multiset(Filter(records, Wanted(budget.includeDurable))) && Sorted(ranked, Ahead)
  {
    var ranked, facts := Ranked(records, budget), Select(records, Eligible(budget));
    BeforeSorts();
    SortCorrect(facts, Before);
    RankedFacts(records, budget);
    SelectIsFilter(records, Eligible(budget), Wanted(budget.includeDurable), |records|);
    assert records[..|records|] == records;
    forall i, j | 0 <= i < j < |ranked| ensures Ahead(ranked[i], ranked[j]) {
      assert ranked[i] in ranked && ranked[j] in ranked;
      AheadExactly(ranked[i], ranked[j]);
    }
  }

  lemma MissingExactly(ranked: seq<Memory>, selected: seq<Memory>)
    ensures OmittedCore(ranked, selected) == Each(Filter(ranked, Missing(selected)), (r: Memory) => r.id)
  {
    var keep := (r: Memory) => r.retention.Core? && r.id !in IdSet(selected);
    SelectIsFilter(ranked, keep, Missing(selected), |ranked|);
    assert ranked[..|ranked|] == ranked;
    assert OmittedCore(ranked, selected) == Ids(Select(ranked, keep));
  }

  /** The selection, over nothing but the records: in order, every fact that gets in is taken, and the core facts whose
      identifiers are not among the selected ones are reported. */
  lemma SelectsExactly(records: seq<Memory>, budget: Budget) returns (ranked: seq<Memory>, taken: seq<seq<Memory>>)
    ensures Selects(Filter(records, Wanted(budget.includeDurable)), budget, ranked, taken,
                    SelectionOf(records, budget))
  {
    ranked := Ranked(records, budget);
    RankedExactly(records, budget);
    taken := TakenInTurn(ranked, budget, |ranked|);
    assert ranked[..|ranked|] == ranked;
    WidthExactly(Chosen(ranked, budget, |ranked|));
    MissingExactly(ranked, Chosen(ranked, budget, |ranked|));
  }
}
