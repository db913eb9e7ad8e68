/** The shadow journal: validated proposals are asserted, superseded, ignored or forgotten, family
    by family, over a store that only adds cards and retires them. */
module ShadowFamilies {
  import opened CanonicalJson
  import opened Ordering
  import opened Traces

  /** A scope and a memory key. */
  type Family = (string, string)

  datatype Candidate = Candidate(id: string, session: string, scope: string, key: string, forget: bool, singleton: bool,
                                 moment: int, text: string)

  datatype Card = Card(moment: int, value: string)
  datatype Status = Active | Superseded | Stale | Tombstoned

  datatype Reason = CardinalityChanged | StaleForget | ForgetResolvedAlias | ExplicitForget | ForgetWithoutFact
                  | DuplicateFact | OutOfOrderSingleton | ChangedSingleton | NewFact
  datatype Event = Event(candidate: string, reason: Reason, card: Option<nat>)

  /** The rendered texts, the comparison of facts and the words of a key. */
  datatype Texts = Texts(fact: Candidate -> string, marker: Candidate -> string, same: (string, Candidate) -> bool,
                         words: string -> set<string>)

  /** Cards are numbered in the order in which the store received them. */
  datatype State = State(cards: seq<Card>, status: seq<Status>, active: map<Family, seq<nat>>,
                         singleton: map<Family, bool>, aliases: map<Family, Family>, events: seq<Event>)

  const EMPTY := State([], [], map[], map[], map[], [])

  // ---- which family a candidate belongs to ----

  /** The share of common words. */
  function Likeness(words: string -> set<string>, a: string, b: string): real {
    var union := words(a) + words(b);
    if union == {} then 0.0 else |words(a) * words(b)| as real / |union| as real
  }

  predicate Comparable(singleton: map<Family, bool>, words: string -> set<string>, c: Candidate, f: Family) {
    f in singleton && f.0 == c.scope && singleton[f] == c.singleton && Likeness(words, c.key, f.1) >= 0.6
  }

  /** A family that is like enough and clearly more so than every other. */
  predicate ClearMatch(singleton: map<Family, bool>, words: string -> set<string>, c: Candidate, f: Family) {
    Comparable(singleton, words, c, f) && forall g :: g in singleton && g != f && Comparable(singleton, words, c, g) ==>
      Likeness(words, c.key, f.1) - Likeness(words, c.key, g.1) >= 0.15
  }

  ghost predicate Unmatched(singleton: map<Family, bool>, words: string -> set<string>, c: Candidate) {
    forall f :: !ClearMatch(singleton, words, c, f)
  }

  /** Where a candidate goes: its own family if there is one, else a recorded alias, else, for
      a request to forget, the clear match if there is one. */
  ghost predicate Resolves(s: State, words: string -> set<string>, c: Candidate, family: Family) {
    var proposed := (c.scope, c.key);
    if proposed in s.active then family == proposed
    else if proposed in s.aliases then family == s.aliases[proposed]
    else if c.forget && !Unmatched(s.singleton, words, c) then ClearMatch(s.singleton, words, c, family)
    else family == proposed
  }

  /** A match already known is recorded as an alias. */
  function Learned(s: State, c: Candidate, family: Family): map<Family, Family> {
    var proposed := (c.scope, c.key);
    if proposed in s.active || proposed in s.aliases || family == proposed then s.aliases
    else s.aliases[proposed := family]
  }

  predicate HigherFirst(a: (real, Family), b: (real, Family)) { a.0 > b.0 || (a.0 == b.0 && PairLeq(a.1, b.1)) }

  lemma HigherFirstIsPreorder()
    ensures TotalPreorder(HigherFirst)
  {
    PairLeqIsTotalOrder();
  }

  // ---- one candidate ----

  predicate InStore(ids: seq<nat>, n: nat) { forall j :: 0 <= j < |ids| ==> ids[j] < n }

  /** The latest moment among some cards. */
  function Latest(cards: seq<Card>, ids: seq<nat>): int
    requires ids != [] && InStore(ids, |cards|)
  {
    var last := cards[ids[|ids| - 1]].moment;
    if |ids| == 1 then last else
      var rest := Latest(cards, ids[..|ids| - 1]);
      if rest < last then last else rest
  }

  /** Older than one of the active cards. */
  predicate IsOlder(cards: seq<Card>, ids: seq<nat>, moment: int) {
    exists i :: i in ids && i < |cards| && moment < cards[i].moment
  }

  function Retire(status: seq<Status>, ids: seq<nat>, to: Status): (r: seq<Status>)
    ensures |r| == |status| && forall i :: 0 <= i < |r| ==> r[i] == if i in ids then to else status[i]
  {
    seq(|status|, i requires 0 <= i < |status| => if i in ids then to else status[i])
  }

  function First(s: State, t: Texts, c: Candidate, ids: seq<nat>, i: nat): Option<nat>
    requires i <= |ids| && InStore(ids, |s.cards|)
    decreases |ids| - i
  {
    if i == |ids| then None
    else if t.same(s.cards[ids[i]].value, c) then Some(ids[i])
    else First(s, t, c, ids, i + 1)
  }

  function Log(s: State, c: Candidate, reason: Reason, card: Option<nat>): State {
    s.(events := s.events + [Event(c.id, reason, card)])
  }

  /** The store and the family's list after adding a card that replaces some others. */
  function Replace(s: State, family: Family, card: Card, ids: seq<nat>, to: Status): State {
    s.(cards := s.cards + [card], status := Retire(s.status, ids, to) + [Active],
       active := s.active[family := [|s.cards|]])
  }

  function Forget(s: State, t: Texts, c: Candidate, family: Family, ids: seq<nat>): State {
    if IsOlder(s.cards, ids, c.moment) then Log(s, c, StaleForget, None) else
      var reason := if family != (c.scope, c.key) then ForgetResolvedAlias else if ids != [] then ExplicitForget
                                                                                else ForgetWithoutFact;
      Log(Replace(s, family, Card(c.moment, t.marker(c)), ids, Tombstoned), c, reason, Some(|s.cards|))
  }

  function Assert(s: State, t: Texts, c: Candidate, family: Family, ids: seq<nat>): State
    requires InStore(ids, |s.cards|)
  {
    var same := First(s, t, c, ids, 0);
    var card := Card(c.moment, t.fact(c));
    if same.Some? then Log(s, c, DuplicateFact, same)
    else if c.singleton && ids != [] then
      if IsOlder(s.cards, ids, c.moment)
      then Log(s.(cards := s.cards + [card], status := s.status + [Stale]), c, OutOfOrderSingleton, Some(|s.cards|))
      else Log(Replace(s, family, card, [ids[|ids| - 1]], Superseded), c, ChangedSingleton, Some(|s.cards|))
    else
      Log(s.(cards := s.cards + [card], status := s.status + [Active], active := s.active[family := ids + [|s.cards|]]),
          c, NewFact, Some(|s.cards|))
  }

  function ListOf(s: State, family: Family): (ids: seq<nat>)
    requires Listed(s)
    ensures InStore(ids, |s.cards|)
  {
    var ids := if family in s.active then s.active[family] else [];
    assert forall j :: 0 <= j < |ids| ==> Holds(s, family, ids[j]);
    ids
  }

  /** The family is on record, with its cardinality, before the candidate is judged. */
  function Entered(s: State, c: Candidate, family: Family, ids: seq<nat>): State {
    s.(aliases := Learned(s, c, family), active := s.active[family := ids],
       singleton := s.singleton[family := c.singleton])
  }

  /** apply, once the family is known. */
  function Applied(s: State, t: Texts, c: Candidate, family: Family): State
    requires Listed(s)
  {
    var ids := ListOf(s, family);
    if family in s.singleton && s.singleton[family] != c.singleton
    then Log(s.(aliases := Learned(s, c, family), active := s.active[family := ids]), c, CardinalityChanged, None)
    else if c.forget then Forget(Entered(s, c, family, ids), t, c, family, ids)
    else Assert(Entered(s, c, family, ids), t, c, family, ids)
  }

  // ---- what every step keeps ----

  predicate Holds(s: State, f: Family, i: int) { f in s.active && i in s.active[f] }

  ghost predicate Owned(s: State, i: int) { exists f :: Holds(s, f, i) }

  /** The lists hold exactly the active cards of the store, each once. */
  ghost predicate Listed(s: State) {
    && |s.status| == |s.cards|
    && (forall f, i :: Holds(s, f, i) ==> i < |s.cards| && s.status[i].Active?)
    && (forall i :: 0 <= i < |s.status| && s.status[i].Active? ==> Owned(s, i))
    && (forall f, g, i :: Holds(s, f, i) && Holds(s, g, i) ==> f == g)
    && (forall f :: f in s.active ==> Distinct(s.active[f]))
  }

  ghost predicate Families(s: State) {
    && s.active.Keys == s.singleton.Keys
    && (forall f :: f in s.active && s.singleton[f] ==> |s.active[f]| <= 1)
    && s.aliases.Keys !! s.active.Keys
    && (forall a :: a in s.aliases ==> s.aliases[a] in s.active && s.aliases[a].0 == a.0)
  }

  ghost predicate Good(s: State) { Listed(s) && Families(s) }

  lemma ReplaceKeepsLists(s: State, f: Family, card: Card, to: Status)
    requires Listed(s) && f in s.active && !to.Active?
    ensures Listed(Replace(s, f, card, s.active[f], to))
  {
    var r := Replace(s, f, card, s.active[f], to);
    var n := |s.cards|;
    forall i | 0 <= i < |r.status| && r.status[i].Active? ensures Owned(r, i) {
      if i == n { assert Holds(r, f, n); } else {
        assert Owned(s, i);
        var g :| Holds(s, g, i);
        assert Holds(r, g, i);
      }
    }
    forall g, i | Holds(r, g, i)
      ensures i < |r.cards| && r.status[i].Active? && (g == f ==> i == n) && (g != f ==> i != n)
    {
      if g != f {
        assert Holds(s, g, i);
        assert i in s.active[f] ==> Holds(s, f, i);
      }
    }
    forall g, h, i | Holds(r, g, i) && Holds(r, h, i) ensures g == h {
      if g != f && h != f { assert Holds(s, g, i) && Holds(s, h, i); }
    }
  }

  lemma AppendKeepsLists(s: State, f: Family, card: Card, r: State)
    requires Listed(s) && f in s.active
    requires r == s.(cards := s.cards + [card], status := s.status + [Active],
                     active := s.active[f := s.active[f] + [|s.cards|]])
    ensures Listed(r)
  {
    var n := |s.cards|;
    forall i | 0 <= i < |r.status| && r.status[i].Active? ensures Owned(r, i) {
      if i == n { assert Holds(r, f, n); } else {
        assert Owned(s, i);
        var g :| Holds(s, g, i);
        assert Holds(r, g, i);
      }
    }
    forall g, i | Holds(r, g, i)
      ensures i < |r.cards| && r.status[i].Active? && (i == n ==> g == f) && (i != n ==> Holds(s, g, i))
    {
      if g == f && i != n { assert i in s.active[f]; }
      if i == n { assert Holds(s, g, n) ==> n < |s.cards|; }
      assert i == n || Holds(s, g, i);
    }
    assert Distinct(r.active[f]) by {
      forall k | 0 <= k < |s.active[f]| ensures s.active[f][k] != n { assert Holds(s, f, s.active[f][k]); }
    }
  }

  lemma StaleKeepsLists(s: State, card: Card, r: State)
    requires Listed(s) && r == s.(cards := s.cards + [card], status := s.status + [Stale])
    ensures Listed(r)
  {
    forall i | 0 <= i < |r.status| && r.status[i].Active? ensures Owned(r, i) {
      assert Owned(s, i);
      var g :| Holds(s, g, i);
      assert Holds(r, g, i);
    }
    assert r.active == s.active;
    forall g, i | Holds(r, g, i) ensures Holds(s, g, i) { assert i in s.active[g]; }
  }

  /** Where a candidate may go: a family on record, or its own if that is no alias. */
  predicate MayEnter(s: State, c: Candidate, family: Family) {
    family.0 == c.scope && (family in s.active || (family == (c.scope, c.key) && family !in s.aliases))
  }

  lemma ResolvedMayEnter(s: State, words: string -> set<string>, c: Candidate, family: Family)
    requires Families(s) && Resolves(s, words, c, family)
    ensures MayEnter(s, c, family)
  {
  }

  lemma EnteredIsGood(s: State, c: Candidate, family: Family, ids: seq<nat>, e: State)
    requires Good(s) && MayEnter(s, c, family) && ids == ListOf(s, family)
    requires (family in s.singleton ==> s.singleton[family] == c.singleton)
    requires e == Entered(s, c, family, ids)
    ensures Good(e)
  {
    SameLists(s, e, family, ids);
  }

  lemma SameLists(s: State, e: State, family: Family, ids: seq<nat>)
    requires Listed(s) && ids == ListOf(s, family) && e.cards == s.cards && e.status == s.status
    requires e.active == s.active[family := ids]
    ensures Listed(e)
  {
    forall f, i | Holds(e, f, i) ensures Holds(s, f, i) {}
    forall i | 0 <= i < |e.status| && e.status[i].Active? ensures Owned(e, i) {
      assert Owned(s, i);
      var f :| Holds(s, f, i);
      assert Holds(e, f, i);
    }
  }

  lemma LogKeeps(s: State, c: Candidate, reason: Reason, card: Option<nat>)
    requires Good(s)
    ensures Good(Log(s, c, reason, card))
  {
    var r := Log(s, c, reason, card);
    forall f, i | Holds(r, f, i) ensures Holds(s, f, i) {}
    forall i | 0 <= i < |r.status| && r.status[i].Active? ensures Owned(r, i) {
      assert Owned(s, i);
      var f :| Holds(s, f, i);
      assert Holds(r, f, i);
    }
  }

  lemma ForgetKeeps(e: State, t: Texts, c: Candidate, family: Family)
    requires Good(e) && family in e.active
    ensures Good(Forget(e, t, c, family, e.active[family]))
  {
    var ids := e.active[family];
    if IsOlder(e.cards, ids, c.moment) {
      LogKeeps(e, c, StaleForget, None);
    } else {
      var card := Card(c.moment, t.marker(c));
      ReplaceKeepsLists(e, family, card, Tombstoned);
      var r := Replace(e, family, card, ids, Tombstoned);
      LogKeeps(r, c, if family != (c.scope, c.key) then ForgetResolvedAlias else if ids != [] then ExplicitForget
                                                                                 else ForgetWithoutFact,
               Some(|e.cards|));
    }
  }

  lemma AssertKeeps(e: State, t: Texts, c: Candidate, family: Family)
    requires Good(e) && family in e.active && e.singleton[family] == c.singleton && InStore(e.active[family], |e.cards|)
    ensures Good(Assert(e, t, c, family, e.active[family]))
  {
    var ids, card := e.active[family], Card(c.moment, t.fact(c));
    var same := First(e, t, c, ids, 0);
    if same.Some? {
      LogKeeps(e, c, DuplicateFact, same);
    } else if c.singleton && ids != [] {
      if IsOlder(e.cards, ids, c.moment) {
        var r := e.(cards := e.cards + [card], status := e.status + [Stale]);
        StaleKeepsLists(e, card, r);
        LogKeeps(r, c, OutOfOrderSingleton, Some(|e.cards|));
      } else {
        assert ids == [ids[|ids| - 1]];
        ReplaceKeepsLists(e, family, card, Superseded);
        LogKeeps(Replace(e, family, card, ids, Superseded), c, ChangedSingleton, Some(|e.cards|));
      }
    } else {
      var r := e.(cards := e.cards + [card], status := e.status + [Active],
                  active := e.active[family := ids + [|e.cards|]]);
      AppendKeepsLists(e, family, card, r);
      LogKeeps(r, c, NewFact, Some(|e.cards|));
    }
  }

  /** Every candidate keeps the journal good. */
  lemma AppliedIsGood(s: State, t: Texts, c: Candidate, family: Family)
    requires Good(s) && Resolves(s, t.words, c, family)
    ensures Good(Applied(s, t, c, family))
  {
    ResolvedMayEnter(s, t.words, c, family);
    var ids := ListOf(s, family);
    if family in s.singleton && s.singleton[family] != c.singleton {
      var e := s.(aliases := Learned(s, c, family), active := s.active[family := ids]);
      SameLists(s, e, family, ids);
      LogKeeps(e, c, CardinalityChanged, None);
    } else {
      var e := Entered(s, c, family, ids);
      EnteredIsGood(s, c, family, ids, e);
      if c.forget { ForgetKeeps(e, t, c, family); } else { AssertKeeps(e, t, c, family); }
    }
  }

  /** One call of apply. */
  ghost predicate Step(t: Texts, s: State, c: Candidate, s': State) {
    Listed(s) && exists family :: Resolves(s, t.words, c, family) && s' == Applied(s, t, c, family)
  }
}
