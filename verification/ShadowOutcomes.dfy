/** What one candidate does to the shadow journal, on the state before and after. */
module ShadowOutcomes {
  import opened CanonicalJson
  import opened Ordering
  import opened ShadowFamilies

  /** The active cards of a family, in the order in which they were listed. */
  function ActiveOf(s: State, family: Family): seq<nat> { if family in s.active then s.active[family] else [] }

  /** One of the family's active cards is later than this moment. */
  ghost predicate Behind(s: State, family: Family, moment: int) {
    exists k :: 0 <= k < |ActiveOf(s, family)| && ActiveOf(s, family)[k] < |s.cards|
                && s.cards[ActiveOf(s, family)[k]].moment > moment
  }

  ghost predicate OtherCardinality(s: State, c: Candidate, family: Family) {
    family in s.singleton && s.singleton[family] != c.singleton
  }

  /** The k-th active card of the family says the same, and no earlier one does. */
  ghost predicate SaysTheSame(s: State, t: Texts, c: Candidate, family: Family, k: int) {
    && 0 <= k < |ActiveOf(s, family)|
    && (forall j :: 0 <= j <= k ==> ActiveOf(s, family)[j] < |s.cards|)
    && t.same(s.cards[ActiveOf(s, family)[k]].value, c)
    && forall j :: 0 <= j < k ==> !t.same(s.cards[ActiveOf(s, family)[j]].value, c)
  }

  ghost predicate Duplicate(s: State, t: Texts, c: Candidate, family: Family) {
    exists k :: SaysTheSame(s, t, c, family, k)
  }

  // ---- what can happen ----

  ghost predicate OtherListsStay(s: State, s': State, family: Family) {
    forall f :: f != family ==> ActiveOf(s', f) == ActiveOf(s, f)
  }

  /** No card is added, retired or taken off a list. */
  ghost predicate NoCardChanges(s: State, s': State, family: Family) {
    s'.cards == s.cards && s'.status == s.status && OtherListsStay(s, s', family)
    && ActiveOf(s', family) == ActiveOf(s, family)
  }

  /** A card is added with this status; those of some list get another one, and all others keep theirs. */
  ghost predicate AddsCard(s: State, s': State, card: Card, status: Status, retired: seq<nat>, to: Status) {
    var n := |s.cards|;
    && |s.status| == n && |s'.status| == n + 1 && s'.cards == s.cards + [card] && s'.status[n] == status
    && (forall i :: 0 <= i < n && i in retired ==> s'.status[i] == to)
    && (forall i :: 0 <= i < n && i !in retired ==> s'.status[i] == s.status[i])
  }

  ghost predicate Logs(s: State, s': State, c: Candidate, reason: Reason, card: Option<nat>) {
    s'.events == s.events + [Event(c.id, reason, card)]
  }

  /** Forgetting forgets: the family's facts are tombstoned, and a marker alone stands for them. */
  ghost predicate Forgets(s: State, t: Texts, c: Candidate, family: Family, s': State) {
    && AddsCard(s, s', Card(c.moment, t.marker(c)), Active, ActiveOf(s, family), Tombstoned)
    && ActiveOf(s', family) == [|s.cards|] && OtherListsStay(s, s', family)
    && Logs(s, s', c, if family != (c.scope, c.key) then ForgetResolvedAlias
                      else if ActiveOf(s, family) == [] then ForgetWithoutFact else ExplicitForget, Some(|s.cards|))
  }

  /** A new value takes the place of the one before. */
  ghost predicate Replaces(s: State, t: Texts, c: Candidate, family: Family, s': State) {
    && AddsCard(s, s', Card(c.moment, t.fact(c)), Active, ActiveOf(s, family), Superseded)
    && ActiveOf(s', family) == [|s.cards|] && OtherListsStay(s, s', family)
    && Logs(s, s', c, ChangedSingleton, Some(|s.cards|))
  }

  /** A value older than the present one is kept, but not active. */
  ghost predicate ComesLate(s: State, t: Texts, c: Candidate, family: Family, s': State) {
    && AddsCard(s, s', Card(c.moment, t.fact(c)), Stale, [], Stale)
    && ActiveOf(s', family) == ActiveOf(s, family) && OtherListsStay(s, s', family)
    && Logs(s, s', c, OutOfOrderSingleton, Some(|s.cards|))
  }

  /** A new fact joins the others. */
  ghost predicate Joins(s: State, t: Texts, c: Candidate, family: Family, s': State) {
    && AddsCard(s, s', Card(c.moment, t.fact(c)), Active, [], Active)
    && ActiveOf(s', family) == ActiveOf(s, family) + [|s.cards|] && OtherListsStay(s, s', family)
    && Logs(s, s', c, NewFact, Some(|s.cards|))
  }

  ghost predicate Ignored(s: State, c: Candidate, family: Family, s': State, reason: Reason, card: Option<nat>) {
    NoCardChanges(s, s', family) && Logs(s, s', c, reason, card)
  }

  /** Which of these happens to a candidate of a family. */
  ghost predicate Happens(s: State, t: Texts, c: Candidate, family: Family, s': State) {
    && (OtherCardinality(s, c, family) ==> Ignored(s, c, family, s', CardinalityChanged, None))
    && (!OtherCardinality(s, c, family) && c.forget ==>
          if Behind(s, family, c.moment) then Ignored(s, c, family, s', StaleForget, None)
          else Forgets(s, t, c, family, s'))
    && (!OtherCardinality(s, c, family) && !c.forget && Duplicate(s, t, c, family) ==>
          exists k :: SaysTheSame(s, t, c, family, k)
                      && Ignored(s, c, family, s', DuplicateFact, Some(ActiveOf(s, family)[k])))
    && (!OtherCardinality(s, c, family) && !c.forget && !Duplicate(s, t, c, family) ==>
          if c.singleton && ActiveOf(s, family) != [] then
            if Behind(s, family, c.moment) then ComesLate(s, t, c, family, s') else Replaces(s, t, c, family, s')
          else Joins(s, t, c, family, s'))
    && (if OtherCardinality(s, c, family) then s'.singleton == s.singleton
        else s'.singleton == s.singleton[family := c.singleton])
    && (if family == (c.scope, c.key) || (c.scope, c.key) in s.aliases then s'.aliases == s.aliases
        else s'.aliases == s.aliases[(c.scope, c.key) := family])
  }

  // ---- it does ----

  lemma ListsAgree(s: State, family: Family)
    requires Listed(s)
    ensures ListOf(s, family) == ActiveOf(s, family) && InStore(ActiveOf(s, family), |s.cards|)
  {
  }

  lemma OlderIsBehind(s: State, family: Family, moment: int)
    requires Listed(s)
    ensures IsOlder(s.cards, ListOf(s, family), moment) <==> Behind(s, family, moment)
  {
    var ids := ListOf(s, family);
    if IsOlder(s.cards, ids, moment) {
      var i :| i in ids && i < |s.cards| && moment < s.cards[i].moment;
      var k :| 0 <= k < |ids| && ids[k] == i;
      assert ActiveOf(s, family)[k] < |s.cards|;
    }
  }

  lemma {:induction false} FirstExactly(e: State, t: Texts, c: Candidate, ids: seq<nat>, i: nat)
    requires i <= |ids| && InStore(ids, |e.cards|)
    ensures match First(e, t, c, ids, i)
            case None => forall j :: i <= j < |ids| ==> !t.same(e.cards[ids[j]].value, c)
            case Some(id) => exists k :: i <= k < |ids| && ids[k] == id && t.same(e.cards[id].value, c)
                                         && forall j :: i <= j < k ==> !t.same(e.cards[ids[j]].value, c)
    decreases |ids| - i
  {
    if i < |ids| && !t.same(e.cards[ids[i]].value, c) { FirstExactly(e, t, c, ids, i + 1); }
  }

  lemma DuplicateExactly(s: State, e: State, t: Texts, c: Candidate, family: Family)
    requires Listed(s) && e.cards == s.cards && InStore(ListOf(s, family), |e.cards|)
    ensures match First(e, t, c, ListOf(s, family), 0)
            case None => !Duplicate(s, t, c, family)
            case Some(id) => exists k :: SaysTheSame(s, t, c, family, k) && ActiveOf(s, family)[k] == id
  {
    var ids := ListOf(s, family);
    FirstExactly(e, t, c, ids, 0);
    var r := First(e, t, c, ids, 0);
    if r.Some? {
      var k :| 0 <= k < |ids| && ids[k] == r.value && t.same(e.cards[r.value].value, c)
               && forall j :: 0 <= j < k ==> !t.same(e.cards[ids[j]].value, c);
      assert SaysTheSame(s, t, c, family, k);
    }
  }

  lemma ForgetExactly(s: State, e: State, t: Texts, c: Candidate, family: Family)
    requires Listed(s) && e.cards == s.cards && e.status == s.status && e.events == s.events
    requires e.active == s.active[family := ListOf(s, family)]
    ensures var s' := Forget(e, t, c, family, ListOf(s, family));
            && (if Behind(s, family, c.moment) then Ignored(s, c, family, s', StaleForget, None)
                else Forgets(s, t, c, family, s'))
            && s'.singleton == e.singleton && s'.aliases == e.aliases
  {
    OlderIsBehind(s, family, c.moment);
  }

  lemma AssertExactly(s: State, e: State, t: Texts, c: Candidate, family: Family)
    requires Listed(s) && e.cards == s.cards && e.status == s.status && e.events == s.events
    requires e.active == s.active[family := ListOf(s, family)] && InStore(ListOf(s, family), |e.cards|)
    requires c.singleton ==> |ListOf(s, family)| <= 1
    ensures var s', ids := Assert(e, t, c, family, ListOf(s, family)), ActiveOf(s, family);
            && (Duplicate(s, t, c, family) ==>
                  exists k :: SaysTheSame(s, t, c, family, k)
                              && Ignored(s, c, family, s', DuplicateFact, Some(ids[k])))
            && (!Duplicate(s, t, c, family) ==>
                  if c.singleton && ids != [] then
                    if Behind(s, family, c.moment) then ComesLate(s, t, c, family, s')
                    else Replaces(s, t, c, family, s')
                  else Joins(s, t, c, family, s'))
            && s'.singleton == e.singleton && s'.aliases == e.aliases
  {
    var ids, s' := ListOf(s, family), Assert(e, t, c, family, ListOf(s, family));
    DuplicateExactly(s, e, t, c, family);
    OlderIsBehind(s, family, c.moment);
    var same := First(e, t, c, ids, 0);
    if same.Some? {
      var k :| SaysTheSame(s, t, c, family, k) && ActiveOf(s, family)[k] == same.value;
      assert Ignored(s, c, family, s', DuplicateFact, Some(ids[k]));
    } else if c.singleton && ids != [] && !Behind(s, family, c.moment) {
      assert ids == [ids[|ids| - 1]];
    }
  }

  /** Everything a candidate can do, with the reason logged. */
  lemma HappensExactly(s: State, t: Texts, c: Candidate, family: Family)
    requires Good(s) && Resolves(s, t.words, c, family)
    ensures Happens(s, t, c, family, Applied(s, t, c, family))
  {
    ResolvedMayEnter(s, t.words, c, family);
    ListsAgree(s, family);
    if !OtherCardinality(s, c, family) {
      var e := Entered(s, c, family, ListOf(s, family));
      if c.forget { ForgetExactly(s, e, t, c, family); } else { AssertExactly(s, e, t, c, family); }
    }
  }

  // ---- to whom a request to forget goes ----

  function Common(words: string -> set<string>, a: string, b: string): nat { |words(a) * words(b)| }

  function All(words: string -> set<string>, a: string, b: string): nat { |words(a) + words(b)| }

  /** A family on record with the scope and the cardinality of the candidate, whose key shares three of five words. */
  ghost predicate Alike(s: State, words: string -> set<string>, c: Candidate, f: Family) {
    && f in s.singleton && f.0 == c.scope && s.singleton[f] == c.singleton
    && All(words, c.key, f.1) > 0 && 5 * Common(words, c.key, f.1) >= 3 * All(words, c.key, f.1)
  }

  /** By three of twenty words, counted over both unions. */
  ghost predicate ClearlyMore(words: string -> set<string>, key: string, a: string, b: string) {
    20 * (Common(words, key, a) * All(words, key, b) - Common(words, key, b) * All(words, key, a)) >=
    3 * (All(words, key, a) * All(words, key, b))
  }

  lemma ShareOfThree(m: nat, n: nat)
    requires n > 0
    ensures m as real / n as real >= 0.6 <==> 5 * m >= 3 * n
  {
    Ratio(m as real, n as real);
    assert (5 * m) as real == 5.0 * m as real && (3 * n) as real == 3.0 * n as real;
  }

  lemma Ratio(x: real, y: real)
    requires y > 0.0
    ensures x / y >= 0.6 <==> 5.0 * x >= 3.0 * y
  {
    assert x / y * y == x;
    if 5.0 * x >= 3.0 * y { NoLess(x / y, 0.6, y); } else { Less(x / y, 0.6, y); }
  }

  lemma NoLess(x: real, y: real, k: real)
    requires k > 0.0 && x * k >= y * k
    ensures x >= y
  {
  }

  lemma Less(x: real, y: real, k: real)
    requires k > 0.0 && x * k < y * k
    ensures x < y
  {
  }

  lemma SharesApart(i: nat, m: nat, j: nat, n: nat)
    requires m > 0 && n > 0
    ensures i as real / m as real - j as real / n as real >= 0.15 <==> 20 * (i * n - j * m) >= 3 * (m * n)
  {
    var x, y, k := i as real / m as real, j as real / n as real, m as real * n as real;
    assert x * m as real == i as real && y * n as real == j as real;
    assert x * k == (x * m as real) * n as real == (i * n) as real;
    assert y * k == (y * n as real) * m as real == (j * m) as real;
    assert k == (m * n) as real > 0.0;
    assert (x - y) * k == (i * n - j * m) as real;
    if 20 * (i * n - j * m) >= 3 * (m * n) { NoLess(x - y, 0.15, k); } else { Less(x - y, 0.15, k); }
  }

  lemma AlikeExactly(s: State, words: string -> set<string>, c: Candidate, f: Family)
    ensures Comparable(s.singleton, words, c, f) <==> Alike(s, words, c, f)
  {
    if All(words, c.key, f.1) > 0 { ShareOfThree(Common(words, c.key, f.1), All(words, c.key, f.1)); }
  }

  lemma ApartExactly(words: string -> set<string>, key: string, a: string, b: string)
    requires All(words, key, a) > 0 && All(words, key, b) > 0
    ensures Likeness(words, key, a) - Likeness(words, key, b) >= 0.15 <==> ClearlyMore(words, key, a, b)
  {
    SharesApart(Common(words, key, a), All(words, key, a), Common(words, key, b), All(words, key, b));
  }

  ghost predicate OnlyOneAlike(s: State, words: string -> set<string>, c: Candidate, family: Family) {
    && Alike(s, words, c, family)
    && forall g :: Alike(s, words, c, g) && g != family ==> ClearlyMore(words, c.key, family.1, g.1)
  }

  lemma ClearExactly(s: State, words: string -> set<string>, c: Candidate, family: Family)
    ensures ClearMatch(s.singleton, words, c, family) <==> OnlyOneAlike(s, words, c, family)
  {
    forall g ensures Comparable(s.singleton, words, c, g) <==> Alike(s, words, c, g) { AlikeExactly(s, words, c, g); }
    if Alike(s, words, c, family) {
      forall g | Alike(s, words, c, g)
        ensures Likeness(words, c.key, family.1) - Likeness(words, c.key, g.1) >= 0.15 <==>
                ClearlyMore(words, c.key, family.1, g.1)
      {
        ApartExactly(words, c.key, family.1, g.1);
      }
    }
  }

  /** A candidate goes to a family other than its own exactly if its own has never been used, and either an alias says
      so, or it asks to forget and one family on record is alike and clearly more so than every other: in whole
      words. */
  lemma ElsewhereExactly(s: State, words: string -> set<string>, c: Candidate, family: Family)
    requires family != (c.scope, c.key)
    ensures Resolves(s, words, c, family) <==>
            && (c.scope, c.key) !in s.active
            && if (c.scope, c.key) in s.aliases then family == s.aliases[(c.scope, c.key)]
               else c.forget && OnlyOneAlike(s, words, c, family)
  {
    ClearExactly(s, words, c, family);
  }
}
