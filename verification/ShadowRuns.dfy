/** What no sequence of candidates can change about the shadow journal. */
module ShadowRuns {
  import opened CanonicalJson
  import opened Ordering
  import opened ShadowFamilies
  import opened ShadowOutcomes
  import opened Traces

  // ---- the latest moment of a family ----

  lemma {:induction false} LatestIsMember(cards: seq<Card>, ids: seq<nat>)
    requires ids != [] && InStore(ids, |cards|)
    ensures exists i :: i in ids && i < |cards| && cards[i].moment == Latest(cards, ids)
  {
    var last := ids[|ids| - 1];
    assert last in ids;
    if |ids| > 1 { LatestIsMember(cards, ids[..|ids| - 1]); }
  }

  lemma NotOlder(cards: seq<Card>, ids: seq<nat>, moment: int)
    requires ids != [] && InStore(ids, |cards|) && !IsOlder(cards, ids, moment)
    ensures Latest(cards, ids) <= moment
  {
    LatestIsMember(cards, ids);
  }

  lemma {:induction false} LatestInMore(cards: seq<Card>, more: seq<Card>, ids: seq<nat>)
    requires ids != [] && InStore(ids, |cards|) && cards <= more
    ensures InStore(ids, |more|) && Latest(more, ids) == Latest(cards, ids)
  {
    if |ids| > 1 { LatestInMore(cards, more, ids[..|ids| - 1]); }
  }

  lemma LatestOfMore(cards: seq<Card>, ids: seq<nat>, i: nat)
    requires ids != [] && InStore(ids, |cards|) && i < |cards|
    ensures InStore(ids + [i], |cards|) && Latest(cards, ids + [i]) >= Latest(cards, ids)
  {
    assert (ids + [i])[..|ids|] == ids;
  }

  // ---- what a step may change ----

  /** The family's latest active card gets no older, and the family is never left empty. */
  ghost predicate Later(s: State, s': State, f: Family) {
    f in s.active && s.active[f] != [] ==>
      && f in s'.active && s'.active[f] != [] && InStore(s.active[f], |s.cards|) && InStore(s'.active[f], |s'.cards|)
      && Latest(s.cards, s.active[f]) <= Latest(s'.cards, s'.active[f])
  }

  /** Nothing is taken back: cards and families stay, retired cards stay retired, cardinalities
      and aliases are fixed, one event is logged. */
  ghost predicate Grows(s: State, s': State) {
    && s.cards <= s'.cards && |s.status| == |s.cards| && |s'.status| == |s'.cards|
    && (forall i :: 0 <= i < |s.status| && !s.status[i].Active? ==> s'.status[i] == s.status[i])
    && (forall f :: f in s.singleton ==> f in s'.singleton && s'.singleton[f] == s.singleton[f])
    && (forall a :: a in s.aliases ==> a in s'.aliases && s'.aliases[a] == s.aliases[a])
    && s.events <= s'.events
  }

  lemma SameLater(s: State, s': State, f: Family)
    requires Listed(s) && s.cards <= s'.cards && (f in s.active ==> f in s'.active && s'.active[f] == s.active[f])
    ensures Later(s, s', f)
  {
    var ids := ListOf(s, f);
    if ids != [] { LatestInMore(s.cards, s'.cards, ids); }
  }

  lemma ReplacedLater(s: State, s': State, f: Family, card: Card)
    requires Listed(s) && s'.cards == s.cards + [card] && f in s'.active && s'.active[f] == [|s.cards|]
    requires !IsOlder(s.cards, ListOf(s, f), card.moment)
    ensures Later(s, s', f)
  {
    var ids := ListOf(s, f);
    if ids != [] { NotOlder(s.cards, ids, card.moment); }
  }

  lemma AppendedLater(s: State, s': State, f: Family, card: Card)
    requires Listed(s) && s'.cards == s.cards + [card] && f in s'.active && s'.active[f] == ListOf(s, f) + [|s.cards|]
    ensures Later(s, s', f)
  {
    var ids := ListOf(s, f);
    if ids != [] {
      LatestInMore(s.cards, s'.cards, ids);
      LatestOfMore(s'.cards, ids, |s.cards|);
    }
  }

  lemma GrowsTwice(a: State, b: State, c: State)
    requires Grows(a, b) && Grows(b, c)
    ensures Grows(a, c)
  {
    forall i | 0 <= i < |a.status| && !a.status[i].Active? ensures c.status[i] == a.status[i] {
      assert b.status[i] == a.status[i];
    }
  }

  lemma ReplaceGrows(e: State, family: Family, card: Card, ids: seq<nat>, to: Status)
    requires |e.status| == |e.cards| && forall i :: i in ids ==> i < |e.status| && e.status[i].Active?
    ensures Grows(e, Replace(e, family, card, ids, to))
  {
  }

  lemma AddGrows(e: State, card: Card, status: Status, active: map<Family, seq<nat>>)
    requires |e.status| == |e.cards|
    ensures Grows(e, e.(cards := e.cards + [card], status := e.status + [status], active := active))
  {
  }

  lemma LogGrows(e: State, c: Candidate, reason: Reason, card: Option<nat>)
    requires |e.status| == |e.cards|
    ensures Grows(e, Log(e, c, reason, card)) && |Log(e, c, reason, card).events| == |e.events| + 1
  {
  }

  lemma ForgetGrows(e: State, t: Texts, c: Candidate, family: Family, ids: seq<nat>)
    requires |e.status| == |e.cards| && forall i :: i in ids ==> i < |e.status| && e.status[i].Active?
    ensures var r := Forget(e, t, c, family, ids); Grows(e, r) && |r.events| == |e.events| + 1
  {
    if IsOlder(e.cards, ids, c.moment) { LogGrows(e, c, StaleForget, None); } else {
      var reason := if family != (c.scope, c.key) then ForgetResolvedAlias else if ids != [] then ExplicitForget
                                                                                else ForgetWithoutFact;
      var card := Card(c.moment, t.marker(c));
      ReplaceGrows(e, family, card, ids, Tombstoned);
      var r := Replace(e, family, card, ids, Tombstoned);
      LogGrows(r, c, reason, Some(|e.cards|));
      GrowsTwice(e, r, Log(r, c, reason, Some(|e.cards|)));
    }
  }

  lemma AssertGrows(e: State, t: Texts, c: Candidate, family: Family, ids: seq<nat>)
    requires |e.status| == |e.cards| && InStore(ids, |e.cards|)
    requires forall i :: i in ids ==> i < |e.status| && e.status[i].Active?
    ensures var r := Assert(e, t, c, family, ids); Grows(e, r) && |r.events| == |e.events| + 1
  {
    var same, card := First(e, t, c, ids, 0), Card(c.moment, t.fact(c));
    var r, reason := e, DuplicateFact;
    if same.None? && c.singleton && ids != [] && IsOlder(e.cards, ids, c.moment) {
      r, reason := e.(cards := e.cards + [card], status := e.status + [Stale]), OutOfOrderSingleton;
      AddGrows(e, card, Stale, e.active);
    } else if same.None? && c.singleton && ids != [] {
      r, reason := Replace(e, family, card, [ids[|ids| - 1]], Superseded), ChangedSingleton;
      ReplaceGrows(e, family, card, [ids[|ids| - 1]], Superseded);
    } else if same.None? {
      var active := e.active[family := ids + [|e.cards|]];
      r, reason := e.(cards := e.cards + [card], status := e.status + [Active], active := active), NewFact;
      AddGrows(e, card, Active, active);
    }
    var at := if same.Some? then same else Some(|e.cards|);
    LogGrows(r, c, reason, at);
    GrowsTwice(e, r, Log(r, c, reason, at));
  }

  lemma EnteredGrows(s: State, c: Candidate, family: Family, e: State)
    requires Good(s) && MayEnter(s, c, family) && e.cards == s.cards && e.status == s.status && e.events == s.events
    requires e.aliases == Learned(s, c, family)
    requires e.singleton == s.singleton || (family !in s.singleton && e.singleton == s.singleton[family := c.singleton])
    ensures Grows(s, e)
  {
  }

  lemma AppliedGrows(s: State, t: Texts, c: Candidate, family: Family)
    requires Good(s) && Resolves(s, t.words, c, family)
    ensures var s' := Applied(s, t, c, family); Grows(s, s') && |s'.events| == |s.events| + 1
  {
    ResolvedMayEnter(s, t.words, c, family);
    var ids := ListOf(s, family);
    forall i | i in ids ensures i < |s.status| && s.status[i].Active? { assert Holds(s, family, i); }
    var changed := family in s.singleton && s.singleton[family] != c.singleton;
    var e := if changed then s.(aliases := Learned(s, c, family), active := s.active[family := ids])
             else Entered(s, c, family, ids);
    EnteredGrows(s, c, family, e);
    if changed { LogGrows(e, c, CardinalityChanged, None); }
    else if c.forget { ForgetGrows(e, t, c, family, ids); }
    else { AssertGrows(e, t, c, family, ids); }
    GrowsTwice(s, e, Applied(s, t, c, family));
  }

  lemma ForgetIsLater(s: State, e: State, t: Texts, c: Candidate, f: Family)
    requires Listed(s) && e.cards == s.cards && e.active == s.active[f := ListOf(s, f)]
    ensures Later(s, Forget(e, t, c, f, ListOf(s, f)), f)
  {
    var ids := ListOf(s, f);
    var s' := Forget(e, t, c, f, ids);
    if IsOlder(e.cards, ids, c.moment) {
      SameLater(s, s', f);
    } else {
      ReplacedLater(s, s', f, Card(c.moment, t.marker(c)));
    }
  }

  lemma AssertIsLater(s: State, e: State, t: Texts, c: Candidate, f: Family)
    requires Listed(s) && e.cards == s.cards && e.active == s.active[f := ListOf(s, f)]
    requires InStore(ListOf(s, f), |e.cards|)
    requires c.singleton ==> |ListOf(s, f)| <= 1
    ensures Later(s, Assert(e, t, c, f, ListOf(s, f)), f)
  {
    var ids, card := ListOf(s, f), Card(c.moment, t.fact(c));
    var s' := Assert(e, t, c, f, ids);
    if First(e, t, c, ids, 0).Some? { SameLater(s, s', f); }
    else if c.singleton && ids != [] {
      if IsOlder(e.cards, ids, c.moment) { SameLater(s, s', f); } else { ReplacedLater(s, s', f, card); }
    } else {
      AppendedLater(s, s', f, card);
    }
  }

  lemma OtherIsLater(s: State, t: Texts, c: Candidate, family: Family, f: Family)
    requires Good(s) && MayEnter(s, c, family)
    requires f != family || (family in s.singleton && s.singleton[family] != c.singleton)
    ensures Later(s, Applied(s, t, c, family), f)
  {
    SameLater(s, Applied(s, t, c, family), f);
  }

  lemma OwnIsLater(s: State, t: Texts, c: Candidate, f: Family)
    requires Good(s) && MayEnter(s, c, f)
    requires f in s.singleton ==> s.singleton[f] == c.singleton
    ensures Later(s, Applied(s, t, c, f), f)
  {
    var e := Entered(s, c, f, ListOf(s, f));
    if c.forget { ForgetIsLater(s, e, t, c, f); } else { AssertIsLater(s, e, t, c, f); }
  }

  lemma AppliedIsLater(s: State, t: Texts, c: Candidate, family: Family, f: Family)
    requires Good(s) && Resolves(s, t.words, c, family)
    ensures Later(s, Applied(s, t, c, family), f)
  {
    ResolvedMayEnter(s, t.words, c, family);
    if f != family || (family in s.singleton && s.singleton[family] != c.singleton) {
      OtherIsLater(s, t, c, family, f);
    } else {
      OwnIsLater(s, t, c, f);
    }
  }

  // ---- runs ----

  ghost function Steps(t: Texts): (State, Candidate, State) -> bool { (s, c, s') => Step(t, s, c, s') }

  lemma StepKeeps(t: Texts, s: State, c: Candidate, s': State)
    requires Good(s) && Step(t, s, c, s')
    ensures Good(s') && Grows(s, s') && |s'.events| == |s.events| + 1 && forall f :: Later(s, s', f)
  {
    var family :| Resolves(s, t.words, c, family) && s' == Applied(s, t, c, family);
    AppliedIsGood(s, t, c, family);
    AppliedGrows(s, t, c, family);
    forall f ensures Later(s, s', f) { AppliedIsLater(s, t, c, family, f); }
  }

  lemma AlwaysGood(t: Texts, cs: seq<Candidate>, ss: seq<State>, n: nat)
    requires IsTrace(Steps(t), cs, ss) && ss[0] == EMPTY && n <= |cs|
    ensures Good(ss[n])
  {
    forall s, c, s' | Good(s) && Steps(t)(s, c, s') ensures Good(s') { StepKeeps(t, s, c, s'); }
    Invariant(Steps(t), Good, cs, ss, n);
  }

  /** At every moment of every run the families' lists are exactly the active cards of the store,
      a singleton family has at most one, and an alias is no family of its own. */
  lemma ListsAreTheActiveCards(t: Texts, cs: seq<Candidate>, ss: seq<State>, n: nat)
    requires IsTrace(Steps(t), cs, ss) && ss[0] == EMPTY && n <= |cs|
    ensures var s := ss[n];
            && |s.status| == |s.cards|
            && (forall i :: 0 <= i < |s.cards| ==>
                  (s.status[i].Active? <==> exists f :: f in s.active && i in s.active[f]))
            && (forall f, g, i :: f in s.active && g in s.active && i in s.active[f] && i in s.active[g] ==> f == g)
            && (forall f :: f in s.active ==>
                  f in s.singleton && Distinct(s.active[f]) && (s.singleton[f] ==> |s.active[f]| <= 1))
            && (forall a :: a in s.aliases ==> a !in s.active && s.aliases[a] in s.active)
  {
    AlwaysGood(t, cs, ss, n);
    var s := ss[n];
    forall i | 0 <= i < |s.cards| ensures s.status[i].Active? <==> exists f :: f in s.active && i in s.active[f] {
      if s.status[i].Active? {
        assert Owned(s, i);
        var f :| Holds(s, f, i);
      }
      if f :| f in s.active && i in s.active[f] { assert Holds(s, f, i); }
    }
    forall f, g, i | f in s.active && g in s.active && i in s.active[f] && i in s.active[g] ensures f == g {
      assert Holds(s, f, i) && Holds(s, g, i);
    }
  }

  ghost predicate NoWorse(s: State, s': State, f: Family) { Grows(s, s') && Later(s, s', f) }

  ghost function NoWorseFor(f: Family): (State, State) -> bool { (s, s') => NoWorse(s, s', f) }

  lemma NoWorseIsPreorder(f: Family)
    ensures Preorder(Good, NoWorseFor(f))
  {
    forall s | Good(s) ensures NoWorse(s, s, f) { SameLater(s, s, f); }
    forall a, b, c | NoWorse(a, b, f) && NoWorse(b, c, f) ensures NoWorse(a, c, f) { GrowsTwice(a, b, c); }
  }

  /** Between any two moments of a run: nothing is taken back, and a family that has an active
      card keeps one, whose latest moment never decreases. */
  lemma NothingTakenBack(t: Texts, cs: seq<Candidate>, ss: seq<State>, m: nat, n: nat, f: Family)
    requires IsTrace(Steps(t), cs, ss) && ss[0] == EMPTY && m <= n <= |cs|
    ensures Grows(ss[m], ss[n]) && Later(ss[m], ss[n], f)
  {
    forall s, c, s' | Good(s) && Steps(t)(s, c, s') ensures Good(s') && NoWorse(s, s', f) { StepKeeps(t, s, c, s'); }
    NoWorseIsPreorder(f);
    Monotone(Steps(t), Good, NoWorseFor(f), cs, ss, m, n);
  }

  // ---- what is forgotten ----

  ghost predicate IsTombstone(s: State, i: nat, card: Card) {
    i < |s.cards| && i < |s.status| && s.cards[i] == card && s.status[i] == Tombstoned
  }

  /** What a request to forget finds active, unless the request is stale or its cardinality another, is tombstoned from
      then on, whatever is applied later. */
  lemma ForgottenForGood(t: Texts, cs: seq<Candidate>, ss: seq<State>, m: nat, n: nat) returns (family: Family)
    requires IsTrace(Steps(t), cs, ss) && ss[0] == EMPTY && m < n <= |cs| && cs[m].forget
    ensures Resolves(ss[m], t.words, cs[m], family)
    ensures !OtherCardinality(ss[m], cs[m], family) && !Behind(ss[m], family, cs[m].moment) ==>
              forall i :: i in ActiveOf(ss[m], family) ==>
                i < |ss[m].cards| && IsTombstone(ss[n], i, ss[m].cards[i])
  {
    AlwaysGood(t, cs, ss, m);
    assert Steps(t)(ss[m], cs[m], ss[m + 1]);
    family :| Resolves(ss[m], t.words, cs[m], family) && ss[m + 1] == Applied(ss[m], t, cs[m], family);
    HappensExactly(ss[m], t, cs[m], family);
    NothingTakenBack(t, cs, ss, m + 1, n, family);
    ListsAgree(ss[m], family);
    if !OtherCardinality(ss[m], cs[m], family) && !Behind(ss[m], family, cs[m].moment) {
      assert Forgets(ss[m], t, cs[m], family, ss[m + 1]);
      TombstonesLast(ss[m], t, cs[m], family, ss[m + 1], ss[n]);
    }
  }

  lemma TombstonesLast(s: State, t: Texts, c: Candidate, family: Family, s': State, later: State)
    requires InStore(ActiveOf(s, family), |s.cards|) && Forgets(s, t, c, family, s') && Grows(s', later)
    ensures forall i :: i in ActiveOf(s, family) ==> i < |s.cards| && IsTombstone(later, i, s.cards[i])
  {
    forall i | i in ActiveOf(s, family) ensures i < |s.cards| && IsTombstone(later, i, s.cards[i]) {
      var k :| 0 <= k < |ActiveOf(s, family)| && ActiveOf(s, family)[k] == i;
      assert s'.status[i] == Tombstoned && s'.cards[i] == s.cards[i];
    }
  }

  // ---- candidates that come late ----

  /** A candidate older than an active card of its family leaves the family as it is, with one
      exception: an assertion of a new fact in a family of several values becomes active, even
      behind a later request to forget. */
  lemma LateCandidates(s: State, t: Texts, c: Candidate, family: Family)
    requires Good(s) && Resolves(s, t.words, c, family) && IsOlder(s.cards, ListOf(s, family), c.moment)
    requires family in s.singleton && s.singleton[family] == c.singleton
    ensures Applied(s, t, c, family).active[family] == s.active[family] <==>
            c.forget || c.singleton || First(Entered(s, c, family, s.active[family]), t, c, s.active[family], 0).Some?
  {
    var ids := s.active[family];
    assert ids + [|s.cards|] != ids;
  }

  /** The journal after a request to forget in a new family. */
  function AfterForget(t: Texts, c: Candidate): State {
    State([Card(c.moment, t.marker(c))], [Active], map[(c.scope, c.key) := [0]],
          map[(c.scope, c.key) := c.singleton], map[],
          [Event(c.id, ForgetWithoutFact, Some(0))])
  }

  lemma FirstForget(t: Texts, c: Candidate)
    requires c.forget
    ensures Listed(EMPTY) && Resolves(EMPTY, t.words, c, (c.scope, c.key))
    ensures Applied(EMPTY, t, c, (c.scope, c.key)) == AfterForget(t, c)
  {
  }

  lemma ThenAssert(t: Texts, s: State, c: Candidate)
    requires Listed(s) && !c.forget && !c.singleton && (c.scope, c.key) in s.active && s.active[(c.scope, c.key)] == [0]
    requires s.singleton == map[(c.scope, c.key) := false] && |s.cards| == 1 && !t.same(s.cards[0].value, c)
    ensures Resolves(s, t.words, c, (c.scope, c.key))
    ensures var s' := Applied(s, t, c, (c.scope, c.key));
            && s'.cards == s.cards + [Card(c.moment, t.fact(c))] && s'.status == s.status + [Active]
            && s'.active == s.active[(c.scope, c.key) := [0, 1]]
  {
    assert s.active[(c.scope, c.key) := [0]] == s.active;
    var e := Entered(s, c, (c.scope, c.key), [0]);
    assert First(e, t, c, [0], 1) == None;
    assert [0] + [1] == [0, 1] && e.active[(c.scope, c.key) := [0, 1]] == s.active[(c.scope, c.key) := [0, 1]];
  }

  /** In a family of several values a request to forget does not hold against an older assertion that comes later:
      both its marker and the fact are active in the end. */
  lemma ForgottenAndActive(t: Texts, forget: Candidate, late: Candidate) returns (ss: seq<State>)
    requires forget.forget && !forget.singleton && !late.forget && !late.singleton
    requires late.scope == forget.scope && late.key == forget.key && late.moment < forget.moment
    requires !t.same(t.marker(forget), late)
    ensures IsTrace(Steps(t), [forget, late], ss) && ss[0] == EMPTY
    ensures ss[2].cards == [Card(forget.moment, t.marker(forget)), Card(late.moment, t.fact(late))]
    ensures ss[2].status == [Active, Active] && ss[2].active == map[(late.scope, late.key) := [0, 1]]
  {
    var f := (late.scope, late.key);
    FirstForget(t, forget);
    var s := AfterForget(t, forget);
    var s' := SecondState(t, forget, late, s, f);
    StepTaken(t, EMPTY, forget, s, f);
    StepTaken(t, s, late, s', f);
    TwoSteps(Steps(t), EMPTY, forget, s, late, s');
    ss := [EMPTY, s, s'];
  }

  lemma SecondState(t: Texts, forget: Candidate, late: Candidate, s: State, f: Family) returns (s': State)
    requires forget.forget && !forget.singleton && !late.forget && !late.singleton && s == AfterForget(t, forget)
    requires f == (late.scope, late.key) == (forget.scope, forget.key) && !t.same(t.marker(forget), late)
    ensures Listed(s) && Resolves(s, t.words, late, f) && s' == Applied(s, t, late, f)
    ensures s'.cards == [Card(forget.moment, t.marker(forget)), Card(late.moment, t.fact(late))]
    ensures s'.status == [Active, Active] && s'.active == map[f := [0, 1]]
  {
    AfterForgetIsGood(t, forget);
    ThenAssert(t, s, late);
    s' := Applied(s, t, late, f);
  }

  lemma AfterForgetIsGood(t: Texts, c: Candidate)
    requires c.forget
    ensures Good(AfterForget(t, c))
  {
    FirstForget(t, c);
    AppliedIsGood(EMPTY, t, c, (c.scope, c.key));
  }

  lemma StepTaken(t: Texts, a: State, c: Candidate, b: State, f: Family)
    requires Listed(a) && Resolves(a, t.words, c, f) && b == Applied(a, t, c, f)
    ensures Steps(t)(a, c, b)
  {
    assert Step(t, a, c, b);
  }
}
