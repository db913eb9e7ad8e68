/** The journal object and the card store it writes to. */
module ShadowJournal {
  import opened CanonicalJson
  import opened Ordering
  import opened ShadowFamilies
  import opened ShadowOutcomes

  /** Cards are only ever added and retired. */
  class CardStore {
    var cards: seq<Card>
    var status: seq<Status>

    constructor ()
      ensures cards == [] && status == []
    {
      cards, status := [], [];
    }

    method AddCard(card: Card) returns (id: nat)
      modifies this
      ensures id == |old(cards)| && cards == old(cards) + [card] && status == old(status) + [Active]
    {
      id, cards, status := |cards|, cards + [card], status + [Active];
    }

    method Transition(id: nat, to: Status)
      requires id < |status| && !to.Active?
      modifies this`status
      ensures status == old(status)[id := to]
    {
      status := status[id := to];
    }

    method Supersede(oldId: nat, card: Card) returns (id: nat)
      requires oldId < |status|
      modifies this
      ensures id == |old(cards)| && cards == old(cards) + [card]
      ensures status == old(status)[oldId := Superseded] + [Active]
    {
      id, cards, status := |cards|, cards + [card], status[oldId := Superseded] + [Active];
    }
  }

  type Scored = (real, Family)

  predicate IsScore(singleton: map<Family, bool>, words: string -> set<string>, c: Candidate, x: Scored) {
    Comparable(singleton, words, c, x.1) && x.0 == Likeness(words, c.key, x.1.1)
  }

  /** The first two of the sorted scores decide whether there is a clear match. */
  lemma TopTwoDecide(singleton: map<Family, bool>, words: string -> set<string>, c: Candidate, sorted: seq<Scored>)
    requires Sorted(sorted, HigherFirst) && Distinct(sorted)
    requires forall x :: x in sorted <==> IsScore(singleton, words, c, x)
    ensures sorted == [] || (|sorted| > 1 && sorted[0].0 - sorted[1].0 < 0.15) ==> Unmatched(singleton, words, c)
    ensures sorted != [] && (|sorted| == 1 || sorted[0].0 - sorted[1].0 >= 0.15) ==>
              ClearMatch(singleton, words, c, sorted[0].1)
  {
    forall f | Comparable(singleton, words, c, f) ensures (Likeness(words, c.key, f.1), f) in sorted {
      assert IsScore(singleton, words, c, (Likeness(words, c.key, f.1), f));
    }
    if sorted != [] {
      assert sorted[0] in sorted;
      if |sorted| > 1 && sorted[0].0 - sorted[1].0 < 0.15 {
        assert sorted[1] in sorted;
        forall f ensures !ClearMatch(singleton, words, c, f) { Rivalled(singleton, words, c, sorted, f); }
      } else {
        forall g | g in singleton && g != sorted[0].1 && Comparable(singleton, words, c, g)
          ensures sorted[0].0 - Likeness(words, c.key, g.1) >= 0.15
        {
          var j :| 0 <= j < |sorted| && sorted[j] == (Likeness(words, c.key, g.1), g);
          assert j == 1 || HigherFirst(sorted[1], sorted[j]);
        }
      }
    }
  }

  lemma Rivalled(singleton: map<Family, bool>, words: string -> set<string>, c: Candidate, sorted: seq<Scored>,
                 f: Family)
    requires Sorted(sorted, HigherFirst) && Distinct(sorted) && |sorted| > 1 && sorted[0].0 - sorted[1].0 < 0.15
    requires forall x :: x in sorted <==> IsScore(singleton, words, c, x)
    ensures !ClearMatch(singleton, words, c, f)
  {
    if Comparable(singleton, words, c, f) {
      var x := (Likeness(words, c.key, f.1), f);
      assert IsScore(singleton, words, c, x);
      var i :| 0 <= i < |sorted| && sorted[i] == x;
      var rival := sorted[if i == 0 then 1 else 0];
      assert rival in sorted;
      assert i == 0 || HigherFirst(sorted[0], sorted[i]);
      assert rival.1 != f;
    }
  }

  /** The loop over the families on record. */
  method ScoreFamilies(singleton: map<Family, bool>, words: string -> set<string>, c: Candidate)
    returns (scored: seq<Scored>)
    ensures Distinct(scored) && forall x :: x in scored <==> IsScore(singleton, words, c, x)
  {
    scored := [];
    var families := singleton.Keys;
    while families != {}
      invariant families <= singleton.Keys && Distinct(scored)
      invariant forall x :: x in scored <==> IsScore(singleton, words, c, x) && x.1 !in families
      decreases |families|
    {
      var family :| family in families;
      families := families - {family};
      if Comparable(singleton, words, c, family) { scored := scored + [(Likeness(words, c.key, family.1), family)]; }
    }
  }

  /** ShadowJournal */
  class ShadowJournal {
    const store: CardStore
    var active: map<Family, seq<nat>>
    var singleton: map<Family, bool>
    var aliases: map<Family, Family>
    var events: seq<Event>

    ghost function View(): State
      reads this, store
    {
      State(store.cards, store.status, active, singleton, aliases, events)
    }

    constructor (store: CardStore)
      requires store.cards == [] && store.status == []
      ensures View() == EMPTY && Good(View()) && this.store == store
    {
      this.store := store;
      active, singleton, aliases, events := map[], map[], map[], [];
    }

    method ResolveFamily(c: Candidate, t: Texts) returns (family: Family)
      modifies this`aliases
      ensures Resolves(old(View()), t.words, c, family) && aliases == Learned(old(View()), c, family)
    {
      var proposed := (c.scope, c.key);
      if proposed in active { return proposed; }
      if proposed in aliases { return aliases[proposed]; }
      if !c.forget { return proposed; }
      var scored := ScoreFamilies(singleton, t.words, c);
      HigherFirstIsPreorder();
      SortCorrect(scored, HigherFirst);
      SortElements(scored, HigherFirst);
      var sorted := Sort(scored, HigherFirst);
      TopTwoDecide(singleton, t.words, c, sorted);
      if sorted == [] { return proposed; }
      if |sorted| > 1 && sorted[0].0 - sorted[1].0 < 0.15 { return proposed; }
      family := sorted[0].1;
      aliases := if family == proposed then aliases else aliases[proposed := family];
    }

    /** The loop that tombstones the family's cards. */
    method Tombstone(ids: seq<nat>)
      requires InStore(ids, |store.status|)
      modifies store`status
      ensures store.status == Retire(old(store.status), ids, Tombstoned)
    {
      for i := 0 to |ids|
        invariant store.status == Retire(old(store.status), ids[..i], Tombstoned)
      {
        store.Transition(ids[i], Tombstoned);
        assert ids[..i + 1] == ids[..i] + [ids[i]];
      }
      assert ids[..|ids|] == ids;
    }

    method FindSame(c: Candidate, t: Texts, ids: seq<nat>) returns (same: Option<nat>)
      requires InStore(ids, |store.cards|)
      ensures same == First(View(), t, c, ids, 0)
    {
      for i := 0 to |ids|
        invariant First(View(), t, c, ids, i) == First(View(), t, c, ids, 0)
      {
        if t.same(store.cards[ids[i]].value, c) { return Some(ids[i]); }
      }
      return None;
    }

    method Note(c: Candidate, reason: Reason, card: Option<nat>)
      modifies this`events
      ensures events == old(events) + [Event(c.id, reason, card)]
    {
      events := events + [Event(c.id, reason, card)];
    }

    method ApplyForget(c: Candidate, t: Texts, family: Family)
      requires family in active && InStore(active[family], |store.cards|) && |store.status| == |store.cards|
      modifies this`active, this`events, store
      ensures View() == Forget(old(View()), t, c, family, old(active[family]))
    {
      var ids := active[family];
      if ids != [] && exists i :: i in ids && i < |store.cards| && c.moment < store.cards[i].moment {
        Note(c, StaleForget, None);
        return;
      }
      Tombstone(ids);
      var marker := store.AddCard(Card(c.moment, t.marker(c)));
      active := active[family := [marker]];
      Note(c, if family != (c.scope, c.key) then ForgetResolvedAlias else if ids != [] then ExplicitForget
                                                                          else ForgetWithoutFact, Some(marker));
    }

    method ApplyAssert(c: Candidate, t: Texts, family: Family)
      requires family in active && InStore(active[family], |store.cards|) && |store.status| == |store.cards|
      modifies this`active, this`events, store
      ensures View() == Assert(old(View()), t, c, family, old(active[family]))
    {
      var ids := active[family];
      var same := FindSame(c, t, ids);
      if same.Some? {
        Note(c, DuplicateFact, same);
        return;
      }
      var card := Card(c.moment, t.fact(c));
      if c.singleton && ids != [] {
        var newest := ids[|ids| - 1];
        if exists i :: i in ids && i < |store.cards| && c.moment < store.cards[i].moment {
          var id := store.AddCard(card);
          store.Transition(id, Stale);
          Note(c, OutOfOrderSingleton, Some(id));
        } else {
          var id := store.Supersede(newest, card);
          active := active[family := [id]];
          Note(c, ChangedSingleton, Some(id));
        }
      } else {
        var id := store.AddCard(card);
        active := active[family := ids + [id]];
        Note(c, NewFact, Some(id));
      }
    }

    /** What happens once the family is known. */
    method Judge(c: Candidate, t: Texts, family: Family, ghost before: State)
      requires Listed(before) && View() == before.(aliases := Learned(before, c, family))
      modifies this`active, this`singleton, this`events, store
      ensures View() == Applied(before, t, c, family)
    {
      ghost var ids := ListOf(before, family);
      if family !in active { active := active[family := []]; }
      assert active == before.active[family := ids];
      if family in singleton && singleton[family] != c.singleton {
        Note(c, CardinalityChanged, None);
      } else {
        singleton := singleton[family := c.singleton];
        assert View() == Entered(before, c, family, ids);
        if c.forget { ApplyForget(c, t, family); } else { ApplyAssert(c, t, family); }
      }
    }

    /** apply */
    method Apply(c: Candidate, session: string, t: Texts) returns (r: Option<Event>)
      requires Good(View())
      modifies this, store
      ensures r.None? <==> c.session != session
      ensures r.None? ==> View() == old(View())
      ensures r.Some? ==> Step(t, old(View()), c, View()) && Good(View()) && events == old(events) + [r.value]
      ensures r.Some? ==> exists family :: Resolves(old(View()), t.words, c, family) &&
                                           Happens(old(View()), t, c, family, View())
    {
      if c.session != session { return None; }
      ghost var before := View();
      var family := ResolveFamily(c, t);
      Judge(c, t, family, before);
      AppliedIsGood(before, t, c, family);
      HappensExactly(before, t, c, family);
      LogsOne(before, t, c, family);
      return Some(events[|events| - 1]);
    }
  }

  lemma LogsOne(s: State, t: Texts, c: Candidate, family: Family)
    requires Listed(s)
    ensures var events := Applied(s, t, c, family).events; |events| == |s.events| + 1 && s.events <= events
  {
  }
}
