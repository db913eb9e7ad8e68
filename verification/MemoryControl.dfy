/** Whether a retrieved memory is worth using, judged by the outcomes recorded for it. */
module MemoryControl {
  import opened CanonicalJson
  import opened Ordering

  datatype Stage = Start | Working | Stuck | PreSubmit | ConfigChanged
  datatype Role = Support | Contraindication

  datatype Item = Item(cardId: string, score: real, chars: nat, procedural: bool, warning: bool)
  datatype Outcome = Outcome(success: bool, reward: real, harmful: bool)
  { predicate Valid() { -1.0 <= reward <= 1.0 } }

  datatype Stats = Stats(uses: nat, successes: nat, harmful: nat, rewardTotal: real)
  datatype Context = Context(stage: Stage, recentFailures: nat, tokenBudget: nat, limit: nat)

  /** What the store aggregates from the outcomes of the decisions that used a card. */
  function StatsOf(outcomes: seq<Outcome>): Stats {
    if outcomes == [] then Stats(0, 0, 0, 0.0) else
      var s, o := StatsOf(outcomes[..|outcomes| - 1]), outcomes[|outcomes| - 1];
      Stats(s.uses + 1, s.successes + (if o.success then 1 else 0), s.harmful + (if o.harmful then 1 else 0),
            s.rewardTotal + o.reward)
  }

  function Min(a: real, b: real): real { if a < b then a else b }
  function Max(a: real, b: real): real { if a < b then b else a }

  /** A share of n of the uses, with two uses presumed. */
  function Share(n: nat, uses: nat): real { n as real / (uses + 2) as real }

  function FeedbackReward(s: Stats): real { if s.uses == 0 then 0.0 else 0.1 * (s.rewardTotal / s.uses as real) }

  function TokenPenalty(chars: nat, tokenBudget: nat): real {
    var tokens := if chars / 4 < 1 then 1 else chars / 4;
    Min(0.2, 0.15 * tokens as real / (if tokenBudget < 1 then 1 else tokenBudget) as real)
  }

  function StageBonus(item: Item, role: Role, c: Context): real {
    (if c.stage.PreSubmit? && item.procedural then 0.1 else 0.0)
    + (if c.stage.Stuck? && c.recentFailures > 0 then 0.04 else 0.0)
    + (if role.Contraindication? && (c.stage.Stuck? || c.stage.ConfigChanged?) then 0.08 else 0.0)
    - (if c.stage.Start? then 0.06 else 0.0)
  }

  function RawUtility(item: Item, s: Stats, role: Role, c: Context): real {
    0.55 * item.score + 0.35 * Share(s.successes + 1, s.uses) + FeedbackReward(s) + StageBonus(item, role, c)
    - 0.55 * Share(s.harmful, s.uses) - TokenPenalty(item.chars, c.tokenBudget)
  }

  /** _expected_utility */
  function ExpectedUtility(item: Item, s: Stats, role: Role, c: Context): real {
    Max(-1.0, Min(1.0, RawUtility(item, s, role, c)))
  }

  /** What the stage adds: a tenth for a procedure before submitting, a little for being stuck after a failure, more for
      a warning when stuck or when the configuration has changed, and less at the start. */
  lemma StageShifts(item: Item, role: Role, c: Context)
    ensures StageBonus(item, role, c) ==
            match c.stage
            case Start => -0.06
            case Working => 0.0
            case Stuck => (if c.recentFailures >= 1 then 0.04 else 0.0)
                          + (if role == Contraindication then 0.08 else 0.0)
            case PreSubmit => if item.procedural then 0.1 else 0.0
            case ConfigChanged => if role == Contraindication then 0.08 else 0.0
  {
  }

  /** A text costs fifteen hundredths of its share of the budget, four characters a token, and at most a fifth. */
  lemma TextCost(chars: nat, budget: nat)
    requires budget >= 1
    ensures var tokens := if chars < 4 then 1 else chars / 4;
            && (20 * budget <= 15 * tokens ==> TokenPenalty(chars, budget) == 0.2)
            && (15 * tokens <= 20 * budget ==> TokenPenalty(chars, budget) * budget as real == 0.15 * tokens as real)
  {
    var tokens := if chars < 4 then 1 else chars / 4;
    CappedShare(budget as real, tokens as real, 0.15 * tokens as real / budget as real);
    assert (20 * budget) as real == 20.0 * budget as real && (15 * tokens) as real == 15.0 * tokens as real;
  }

  lemma CappedShare(b: real, n: real, p: real)
    requires b > 0.0 && p == 0.15 * n / b
    ensures p * b == 0.15 * n
    ensures (20.0 * b <= 15.0 * n ==> p >= 0.2) && (15.0 * n <= 20.0 * b ==> p <= 0.2)
  {
    assert p * b == 0.15 * n;
    if 20.0 * b <= 15.0 * n {
      assert 0.2 * b <= p * b;
      Scaled(0.2, p, b);
    }
    if 15.0 * n <= 20.0 * b {
      assert p * b <= 0.2 * b;
      Scaled(p, 0.2, b);
    }
  }

  // ---- the statistics ----

  predicate AllValid(outcomes: seq<Outcome>) { forall i :: 0 <= i < |outcomes| ==> outcomes[i].Valid() }

  lemma {:induction false} StatsBounds(outcomes: seq<Outcome>)
    requires AllValid(outcomes)
    ensures var s := StatsOf(outcomes);
            s.uses == |outcomes| && s.harmful <= s.uses && s.successes <= s.uses
            && -(s.uses as real) <= s.rewardTotal <= s.uses as real
  {
    if outcomes != [] { StatsBounds(outcomes[..|outcomes| - 1]); }
  }

  /** The statistics are counts of the outcomes recorded, of those that succeeded and of those that did harm. */
  lemma {:induction false} StatsCount(outcomes: seq<Outcome>)
    ensures var s := StatsOf(outcomes);
            && s.uses == |outcomes|
            && s.successes == |Filter(outcomes, (o: Outcome) => o.success)|
            && s.harmful == |Filter(outcomes, (o: Outcome) => o.harmful)|
  {
    if outcomes != [] {
      var n := |outcomes| - 1;
      StatsCount(outcomes[..n]);
      assert outcomes == outcomes[..n] + [outcomes[n]];
      CountOneMore(outcomes[..n], outcomes[n], (o: Outcome) => o.success);
      CountOneMore(outcomes[..n], outcomes[n], (o: Outcome) => o.harmful);
    }
  }

  lemma CountOneMore(outcomes: seq<Outcome>, o: Outcome, keep: Outcome -> bool)
    ensures |Filter(outcomes + [o], keep)| == |Filter(outcomes, keep)| + if keep(o) then 1 else 0
  {
    FilterConcat(outcomes, [o], keep);
    FilterOne(o, keep);
  }

  /** Of two histories put together the counts and the rewards add up. */
  lemma {:induction false} StatsAddUp(before: seq<Outcome>, after: seq<Outcome>)
    ensures var s, a, b := StatsOf(before + after), StatsOf(before), StatsOf(after);
            && s.uses == a.uses + b.uses && s.successes == a.successes + b.successes
            && s.harmful == a.harmful + b.harmful && s.rewardTotal == a.rewardTotal + b.rewardTotal
  {
    if after == [] {
      assert before + after == before;
    } else {
      var n := |after| - 1;
      StatsAddUp(before, after[..n]);
      assert (before + after)[..|before| + n] == before + after[..n];
    }
  }

  lemma Scaled(x: real, y: real, k: real)
    requires k > 0.0 && x * k <= y * k
    ensures x <= y
  {
  }

  /** Comparing fractions by cross-multiplication. */
  lemma Fractions(p: real, q: real, r: real, t: real)
    requires q > 0.0 && t > 0.0 && p * t <= r * q
    ensures p / q <= r / t
  {
    var x, y := p / q, r / t;
    assert x * q == p && y * t == r;
    assert x * (q * t) == (x * q) * t == p * t;
    assert y * (q * t) == (y * t) * q == r * q;
    Scaled(x, y, q * t);
  }

  lemma ShareOfMoreUses(n: nat, uses: nat)
    ensures Share(n, uses + 1) <= Share(n, uses)
  {
    Fractions(n as real, (uses + 3) as real, n as real, (uses + 2) as real);
  }

  lemma ShareOfOneMore(n: nat, uses: nat)
    requires n <= uses
    ensures Share(n, uses) <= Share(n + 1, uses + 1)
  {
    var u, m := uses as real, n as real;
    assert m * (u + 3.0) <= (m + 1.0) * (u + 2.0);
    Fractions(m, u + 2.0, m + 1.0, u + 3.0);
  }

  lemma RewardFalls(s: Stats)
    requires -(s.uses as real) <= s.rewardTotal <= s.uses as real
    ensures FeedbackReward(Stats(s.uses + 1, s.successes, s.harmful + 1, s.rewardTotal - 1.0)) <= FeedbackReward(s)
  {
    var u, t := s.uses as real, s.rewardTotal;
    if s.uses > 0 {
      assert (t - 1.0) * u <= t * (u + 1.0);
      Fractions(t - 1.0, u + 1.0, t, u);
    }
  }

  const HARM := Outcome(false, -1.0, true)

  /** One more harmful failure never raises the utility of a memory, whatever its history. */
  lemma HarmNeverHelps(item: Item, outcomes: seq<Outcome>, role: Role, c: Context)
    requires AllValid(outcomes)
    ensures ExpectedUtility(item, StatsOf(outcomes + [HARM]), role, c) <=
              ExpectedUtility(item, StatsOf(outcomes), role, c)
  {
    var s := StatsOf(outcomes);
    StatsBounds(outcomes);
    assert (outcomes + [HARM])[..|outcomes|] == outcomes;
    ShareOfMoreUses(s.successes + 1, s.uses);
    ShareOfOneMore(s.harmful, s.uses);
    if s.uses == 0 { assert outcomes == []; }
    RewardFalls(s);
  }

  lemma ShareByNumber(m: nat, n: nat, uses: nat)
    ensures (Share(n, uses) - Share(m, uses)) * (uses + 2) as real == n as real - m as real
    ensures m <= n ==> Share(m, uses) <= Share(n, uses)
  {
    var u := (uses + 2) as real;
    assert Share(m, uses) * u == m as real && Share(n, uses) * u == n as real;
    if m <= n { Fractions(m as real, u, n as real, u); }
  }

  /** What the record of a memory does to its utility, all else alike: of two memories used equally often, the one with
      a better score, more successes, less harm and better rewards is worth no less. */
  lemma BetterRecordHelps(item: Item, s: Stats, better: Item, t: Stats, role: Role, c: Context)
    requires better == item.(score := better.score) && item.score <= better.score && s.uses == t.uses
    requires s.successes <= t.successes && t.harmful <= s.harmful && s.rewardTotal <= t.rewardTotal
    ensures ExpectedUtility(item, s, role, c) <= ExpectedUtility(better, t, role, c)
  {
    ShareByNumber(s.successes + 1, t.successes + 1, s.uses);
    ShareByNumber(t.harmful, s.harmful, s.uses);
    if s.uses > 0 { Fractions(s.rewardTotal, s.uses as real, t.rewardTotal, s.uses as real); }
  }

  /** By how much: eleven twentieths of a point of the score, seven of a success and eleven of a harmful use in parts of
      the uses with two more presumed, and a tenth of the mean reward. */
  lemma RecordWeighs(item: Item, s: Stats, other: Item, t: Stats, role: Role, c: Context)
    returns (success: real, harm: real, reward: real)
    requires other == item.(score := other.score) && s.uses == t.uses > 0
    ensures 20.0 * (RawUtility(other, t, role, c) - RawUtility(item, s, role, c)) ==
            11.0 * (other.score - item.score) + 7.0 * success - 11.0 * harm + 2.0 * reward
    ensures success * (s.uses + 2) as real == t.successes as real - s.successes as real
    ensures harm * (s.uses + 2) as real == t.harmful as real - s.harmful as real
    ensures reward * s.uses as real == t.rewardTotal - s.rewardTotal
  {
    success := Share(t.successes + 1, s.uses) - Share(s.successes + 1, s.uses);
    harm := Share(t.harmful, s.uses) - Share(s.harmful, s.uses);
    reward := t.rewardTotal / s.uses as real - s.rewardTotal / s.uses as real;
    ShareByNumber(s.successes + 1, t.successes + 1, s.uses);
    ShareByNumber(s.harmful, t.harmful, s.uses);
    Quotients(s.rewardTotal, t.rewardTotal, s.uses as real);
  }

  lemma Quotients(x: real, y: real, n: real)
    requires n > 0.0
    ensures (y / n - x / n) * n == y - x
  {
    assert x / n * n == x && y / n * n == y;
  }

  // ---- suppression ----

  /** The largest score of a retrieved item, by the bound on the ranking. */
  const TOP_SCORE := 0.9125

  /** No use of the memory passes the threshold: at no stage, in no role, with no score up to the given one. */
  ghost predicate Suppressed(s: Stats, top: real, threshold: real) {
    forall item: Item, role: Role, c: Context :: item.score <= top ==> ExpectedUtility(item, s, role, c) < threshold
  }

  /** The utility in the best circumstances, without the cost of its text. */
  function Ceiling(s: Stats, top: real): real {
    0.55 * top + 0.12 + 0.35 * Share(s.successes + 1, s.uses) + FeedbackReward(s) - 0.55 * Share(s.harmful, s.uses)
  }

  lemma BelowCeiling(item: Item, s: Stats, role: Role, c: Context, top: real)
    requires item.score <= top
    ensures RawUtility(item, s, role, c) < Ceiling(s, top)
  {
    var tokens := if item.chars / 4 < 1 then 1 else item.chars / 4;
    var budget := if c.tokenBudget < 1 then 1 else c.tokenBudget;
    assert 0.15 * tokens as real / budget as real > 0.0;
    assert StageBonus(item, role, c) <= 0.12;
  }

  /** The cost of a short text falls below every positive gap. */
  lemma CheapText(gap: real) returns (budget: nat)
    requires gap > 0.0
    ensures budget >= 1 && TokenPenalty(4, budget) <= gap
  {
    budget := (0.15 / gap).Floor + 1;
    assert 0.15 / gap * gap == 0.15;
    assert budget as real > 0.15 / gap;
    Fractions(0.15, budget as real, gap, 1.0) by { MoreThanQuotient(0.15, gap, budget as real); }
  }

  lemma MoreThanQuotient(p: real, q: real, b: real)
    requires q > 0.0 && b > p / q
    ensures p <= q * b
  {
    assert p / q * q == p;
  }

  /** A history suppresses a memory exactly if its statistics leave no room up to the ceiling, whatever the
      largest score is. */
  lemma SuppressedExactly(s: Stats, top: real, threshold: real)
    requires 0.0 <= threshold <= 1.0
    ensures Suppressed(s, top, threshold) <==> Ceiling(s, top) <= threshold
  {
    if Ceiling(s, top) <= threshold {
      forall item: Item, role: Role, c: Context | item.score <= top
        ensures ExpectedUtility(item, s, role, c) < threshold
      {
        BelowCeiling(item, s, role, c, top);
      }
    } else {
      var budget := CheapText(Ceiling(s, top) - threshold);
      PassesWhenCheap(s, top, threshold, budget);
    }
  }

  lemma PassesWhenCheap(s: Stats, top: real, threshold: real, budget: nat)
    requires threshold <= 1.0 && TokenPenalty(4, budget) <= Ceiling(s, top) - threshold
    ensures ExpectedUtility(Item("card", top, 4, false, true), s, Contraindication, Context(Stuck, 1, budget, 1)) >=
            threshold
  {
    var item := Item("card", top, 4, false, true);
    assert RawUtility(item, s, Contraindication, Context(Stuck, 1, budget, 1)) >= threshold;
  }

  /** n harmful failures and nothing else. */
  function Harms(n: nat): seq<Outcome> { seq(n, _ => HARM) }

  lemma {:induction false} StatsOfHarms(n: nat)
    ensures StatsOf(Harms(n)) == Stats(n, 0, n, -(n as real))
  {
    if n > 0 {
      StatsOfHarms(n - 1);
      assert Harms(n)[..n - 1] == Harms(n - 1);
    }
  }

  lemma CeilingOfHarms(n: nat, top: real)
    requires n > 0
    ensures Ceiling(Stats(n, 0, n, -(n as real)), top) == 0.55 * top - 0.53 + 1.45 * Share(1, n)
  {
    var u := n as real;
    assert Share(1, n) * (u + 2.0) == 1.0;
    assert Share(n, n) == (u + 2.0 - 2.0) / (u + 2.0) == 1.0 - 2.0 * Share(1, n);
    assert -u / u == -1.0;
  }

  /** Harmful failures and nothing else suppress a memory under the default threshold from the second one on,
      whether scores end at 0.9125 or at 1. */
  lemma RepeatedHarmSuppresses(n: nat, top: real)
    requires TOP_SCORE <= top <= 1.0
    ensures Suppressed(StatsOf(Harms(n)), top, 0.42) <==> n >= 2
  {
    StatsOfHarms(n);
    SuppressedExactly(StatsOf(Harms(n)), top, 0.42);
    if n > 0 { CeilingOfHarms(n, top); }
    if n >= 2 { Fractions(1.0, n as real + 2.0, 1.0, 4.0); }
  }

  /** One harmful failure does not: a memory with a high score still passes. */
  lemma OneHarmMayPass(item: Item, c: Context)
    requires item.score >= 0.86 && item.chars <= 4 && c.stage.Stuck? && c.recentFailures > 0 && c.tokenBudget >= 1200
    ensures ExpectedUtility(item, StatsOf(Harms(1)), Contraindication, c) >= 0.42
  {
    StatsOfHarms(1);
    assert Share(1, 1) == 1.0 / 3.0;
    assert TokenPenalty(item.chars, c.tokenBudget) <= 0.001 by { Fractions(0.15, c.tokenBudget as real, 0.001, 1.0); }
  }

  const MISS := Outcome(false, 0.0, false)

  lemma StatsOfOneMore(outcomes: seq<Outcome>, o: Outcome)
    ensures var s := StatsOf(outcomes);
            StatsOf(outcomes + [o]) == Stats(s.uses + 1, s.successes + (if o.success then 1 else 0),
                                             s.harmful + (if o.harmful then 1 else 0), s.rewardTotal + o.reward)
  {
    assert (outcomes + [o])[..|outcomes|] == outcomes;
  }

  /** Harmless failures dilute the harm: after two harmful ones and one other no retrieved memory passes, after
      two others one with the score 0.9 does, although it never succeeded. */
  lemma MissesDiluteHarm()
    ensures Suppressed(StatsOf(Harms(2) + [MISS]), TOP_SCORE, 0.42)
    ensures var s := StatsOf(Harms(2) + [MISS] + [MISS]);
            && s.successes == 0 && s.harmful == 2
            && ExpectedUtility(Item("card", 0.9, 4, false, true), s, Contraindication, Context(Stuck, 1, 1000, 1)) >=
               0.42
  {
    StatsOfHarms(2);
    StatsOfOneMore(Harms(2), MISS);
    StatsOfOneMore(Harms(2) + [MISS], MISS);
    assert StatsOf(Harms(2) + [MISS]) == Stats(3, 0, 2, -2.0);
    SuppressedExactly(Stats(3, 0, 2, -2.0), TOP_SCORE, 0.42);
    assert Ceiling(Stats(3, 0, 2, -2.0), TOP_SCORE) <= 0.42;
    var s := StatsOf(Harms(2) + [MISS] + [MISS]);
    assert s == Stats(4, 0, 2, -2.0);
    assert Ceiling(s, 0.9) - 0.42 >= 0.01;
    assert TokenPenalty(4, 1000) <= 0.01;
    PassesWhenCheap(s, 0.9, 0.42, 1000);
  }

  // ---- the decision ----

  datatype Operation = Retrieve | RetrieveWithWarning | Requery | NoMemory
  datatype Controlled = Controlled(item: Item, role: Role, utility: real)
  datatype Decision = Decision(operation: Operation, items: seq<Controlled>)

  function RoleOf(item: Item): Role { if item.warning then Contraindication else Support }

  function RoleName(role: Role): string { if role.Contraindication? then "contraindication" else "support" }

  function Tag(x: Controlled): (string, string) { (RoleName(x.role), x.item.cardId) }

  predicate Better(a: Controlled, b: Controlled) {
    a.utility > b.utility || (a.utility == b.utility && PairLeq(Tag(a), Tag(b)))
  }

  lemma BetterIsPreorder()
    ensures TotalPreorder(Better)
  {
    PairLeqIsTotalOrder();
    KeyedIsPreorder((x: Controlled) => x.utility, Tag, Better);
  }

  lemma KeyedIsPreorder<T(!new)>(value: T -> real, tag: T -> (string, string), leq: (T, T) -> bool)
    requires TotalOrder(PairLeq)
    requires forall a, b :: leq(a, b) <==> value(a) > value(b) || (value(a) == value(b) && PairLeq(tag(a), tag(b)))
    ensures TotalPreorder(leq)
  {
    forall a, b, c | leq(a, b) && leq(b, c) ensures leq(a, c) {
      if value(a) == value(c) { assert PairLeq(tag(a), tag(b)) && PairLeq(tag(b), tag(c)); }
    }
  }

  function Idle(c: Context): Operation { if c.stage.Stuck? && c.recentFailures >= 2 then Requery else NoMemory }

  predicate Useful(item: Item, stats: map<string, Stats>, threshold: real, c: Context) {
    ExpectedUtility(item, StatsFor(item, stats), RoleOf(item), c) >= threshold
  }

  function StatsFor(item: Item, stats: map<string, Stats>): Stats {
    if item.cardId in stats then stats[item.cardId] else Stats(0, 0, 0, 0.0)
  }

  function Control(item: Item, stats: map<string, Stats>, c: Context): Controlled {
    Controlled(item, RoleOf(item), ExpectedUtility(item, StatsFor(item, stats), RoleOf(item), c))
  }

  // ---- the decision spelt out ----

  /** A memory with a warning speaks against something, any other in support; one without recorded outcomes is
      judged as never used. */
  ghost function Judged(stats: map<string, Stats>, c: Context): Item -> Controlled {
    (item: Item) =>
      var role := if item.warning then Contraindication else Support;
      var record := if item.cardId in stats then stats[item.cardId] else Stats(0, 0, 0, 0.0);
      Controlled(item, role, ExpectedUtility(item, record, role, c))
  }

  ghost function WorthUsing(stats: map<string, Stats>, threshold: real, c: Context): Item -> bool {
    (item: Item) => Judged(stats, c)(item).utility >= threshold
  }

  /** Every item worth using, judged, in the order in which they were retrieved. */
  ghost function AllUseful(items: seq<Item>, stats: map<string, Stats>, threshold: real, c: Context): seq<Controlled> {
    Each(Filter(items, WorthUsing(stats, threshold, c)), Judged(stats, c))
  }

  /** The more useful first, then warnings, then by identifier. */
  ghost predicate Ahead(a: Controlled, b: Controlled) {
    a.utility > b.utility
    || (a.utility == b.utility
        && ((a.role.Contraindication? && b.role.Support?)
            || (a.role == b.role && Precedes(a.item.cardId, b.item.cardId))))
  }

  ghost predicate OperationFits(c: Context, items: seq<Controlled>, operation: Operation) {
    && (operation.NoMemory? <==> items == [] && !(c.stage == Stuck && c.recentFailures >= 2))
    && (operation.Requery? <==> items == [] && c.stage == Stuck && c.recentFailures >= 2)
    && (operation.RetrieveWithWarning? <==> exists x :: x in items && x.role == Contraindication)
    && (operation.Retrieve? <==> items != [] && forall x :: x in items ==> x.role == Support)
  }

  lemma AheadExactly(a: Controlled, b: Controlled)
    ensures Better(a, b) <==> Ahead(a, b)
  {
    StrLeqExactly(a.item.cardId, b.item.cardId);
    assert "contraindication"[0] < "support"[0];
  }

  lemma OneMoreUseful(items: seq<Item>, item: Item, stats: map<string, Stats>, threshold: real, c: Context)
    ensures AllUseful(items + [item], stats, threshold, c) ==
            AllUseful(items, stats, threshold, c)
            + if Useful(item, stats, threshold, c) then [Control(item, stats, c)] else []
  {
    var keep, judge := WorthUsing(stats, threshold, c), Judged(stats, c);
    FilterConcat(items, [item], keep);
    FilterOne(item, keep);
    EachConcat(Filter(items, keep), Filter([item], keep), judge);
    assert judge(item) == Control(item, stats, c);
  }

  /** The loop over the retrieved items. */
  method RankUseful(items: seq<Item>, stats: map<string, Stats>, threshold: real, c: Context)
    returns (ranked: seq<Controlled>)
    ensures ranked == AllUseful(items, stats, threshold, c)
    ensures forall x :: x in ranked <==>
              x.item in items && x == Control(x.item, stats, c) && Useful(x.item, stats, threshold, c)
  {
    ranked := [];
    for i := 0 to |items|
      invariant ranked == AllUseful(items[..i], stats, threshold, c)
      invariant forall x :: x in ranked <==>
                  x.item in items[..i] && x == Control(x.item, stats, c) && Useful(x.item, stats, threshold, c)
    {
      assert items[..i + 1] == items[..i] + [items[i]];
      OneMoreUseful(items[..i], items[i], stats, threshold, c);
      var x := Control(items[i], stats, c);
      if x.utility >= threshold { ranked := ranked + [x]; }
    }
    assert items[..|items|] == items;
  }

  /** The useful ones in order, up to the limit. */
  method SelectUseful(items: seq<Item>, stats: map<string, Stats>, threshold: real, c: Context)
    returns (selected: seq<Controlled>)
    requires c.limit >= 1
    ensures |selected| <= c.limit && Sorted(selected, Better)
    ensures forall x :: x in selected ==>
              x.item in items && x == Control(x.item, stats, c) && Useful(x.item, stats, threshold, c)
    ensures |selected| == c.limit || forall item :: item in items && Useful(item, stats, threshold, c) ==>
                                       Control(item, stats, c) in selected
    ensures forall item, x :: item in items && Useful(item, stats, threshold, c) && x in selected ==>
              Control(item, stats, c) in selected || Better(x, Control(item, stats, c))
    ensures BestOf(AllUseful(items, stats, threshold, c), Ahead, c.limit, selected)
  {
    var ranked := RankUseful(items, stats, threshold, c);
    BetterIsPreorder();
    SortCorrect(ranked, Better);
    SortElements(ranked, Better);
    var sorted := Sort(ranked, Better);
    selected := if |sorted| <= c.limit then sorted else sorted[..c.limit];
    TopSelected(sorted, selected, c.limit);
    SelectedAreBest(ranked, sorted, selected, c.limit);
    forall item | item in items && Useful(item, stats, threshold, c) ensures Control(item, stats, c) in sorted {
      assert Control(item, stats, c) in ranked;
    }
    assert forall x :: x in selected ==> x in sorted && x in ranked;
  }

  /** decide, on the items retrieved: the most useful ones up to the limit, in order, with a warning
      exactly if one of them speaks against something; nothing exactly if none is useful enough. */
  method Decide(items: seq<Item>, stats: map<string, Stats>, threshold: real, c: Context) returns (r: Decision)
    requires c.limit >= 1
    ensures |r.items| <= c.limit && Sorted(r.items, Better)
    ensures forall x :: x in r.items ==>
              x.item in items && x == Control(x.item, stats, c) && Useful(x.item, stats, threshold, c)
    ensures |r.items| == c.limit || forall item :: item in items && Useful(item, stats, threshold, c) ==>
                                      Control(item, stats, c) in r.items
    ensures forall item, x :: item in items && Useful(item, stats, threshold, c) && x in r.items ==>
              Control(item, stats, c) in r.items || Better(x, Control(item, stats, c))
    ensures r.items == [] <==> forall item :: item in items ==> !Useful(item, stats, threshold, c)
    ensures BestOf(AllUseful(items, stats, threshold, c), Ahead, c.limit, r.items)
    ensures OperationFits(c, r.items, r.operation)
  {
    if items == [] {
      assert IsListing(AllUseful(items, stats, threshold, c), Ahead, c.limit, [], []);
      return Decision(Idle(c), []);
    }
    var selected := SelectUseful(items, stats, threshold, c);
    if selected == [] { return Decision(Idle(c), []); }
    assert selected[0] in selected;
    if exists x :: x in selected && x.role.Contraindication? { return Decision(RetrieveWithWarning, selected); }
    return Decision(Retrieve, selected);
  }

  lemma SelectedAreBest(all: seq<Controlled>, sorted: seq<Controlled>, selected: seq<Controlled>, limit: nat)
    requires Sorted(sorted, Better) && multiset(sorted) == multiset(all)
    requires selected == if |sorted| <= limit then sorted else sorted[..limit]
    ensures BestOf(all, Ahead, limit, selected)
  {
    forall i, j | 0 <= i < j < |sorted| ensures Ahead(sorted[i], sorted[j]) { AheadExactly(sorted[i], sorted[j]); }
    assert IsListing(all, Ahead, limit, selected, sorted);
  }

  lemma TopSelected(sorted: seq<Controlled>, selected: seq<Controlled>, limit: nat)
    requires Sorted(sorted, Better) && limit >= 1 && selected == if |sorted| <= limit then sorted else sorted[..limit]
    ensures Sorted(selected, Better) && (selected == [] <==> sorted == []) && forall x :: x in selected ==> x in sorted
    ensures forall x, y :: x in selected && y in sorted ==> y in selected || Better(x, y)
  {
    forall x, y | x in selected && y in sorted ensures y in selected || Better(x, y) {
      var i :| 0 <= i < |selected| && selected[i] == x;
      var j :| 0 <= j < |sorted| && sorted[j] == y;
      if j < |selected| { assert selected[j] == y; } else { assert Better(sorted[i], sorted[j]); }
    }
  }
}
