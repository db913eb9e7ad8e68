/** What a ranked card's score is made of, and where the routes to it come from. */
module RetrievalScores {
  import opened CanonicalJson
  import opened Ordering
  import opened GraphExpansion
  import opened Retrieval

  // ---- strengths ----

  /** The last entry for a card in a route. */
  ghost predicate LastEntry(values: seq<(string, real)>, id: string, v: real) {
    exists k :: 0 <= k < |values| && values[k] == (id, v) && forall j :: k < j < |values| ==> values[j].0 != id
  }

  /** Some route of this kind, the graph or any other, gives the card this strength. */
  ghost predicate Gives(routes: seq<Route>, byGraph: bool, id: string, v: real) {
    exists r :: r in routes && (r.name == Graph <==> byGraph) && LastEntry(r.values, id, v)
  }

  /** The greatest of these strengths, or nothing where there is none. */
  ghost predicate IsStrength(routes: seq<Route>, byGraph: bool, id: string, s: real) {
    (s == 0.0 || Gives(routes, byGraph, id, s)) && s >= 0.0 && forall v :: Gives(routes, byGraph, id, v) ==> v <= s
  }

  lemma {:induction false} StrengthExactly(values: seq<(string, real)>, id: string)
    ensures if exists v :: LastEntry(values, id, v) then LastEntry(values, id, Strength(values, id))
            else Strength(values, id) == 0.0
    ensures forall v :: LastEntry(values, id, v) ==> v == Strength(values, id)
  {
    if values != [] {
      var n := |values| - 1;
      var front := values[..n];
      StrengthExactly(front, id);
      if values[n].0 == id {
        assert LastEntry(values, id, values[n].1);
      } else {
        forall v ensures LastEntry(values, id, v) <==> LastEntry(front, id, v) { SameLastEntry(values, id, v); }
      }
    }
  }

  lemma SameLastEntry(values: seq<(string, real)>, id: string, v: real)
    requires values != [] && values[|values| - 1].0 != id
    ensures LastEntry(values, id, v) <==> LastEntry(values[..|values| - 1], id, v)
  {
    var n := |values| - 1;
    var front := values[..n];
    if LastEntry(values, id, v) {
      var k :| 0 <= k < |values| && values[k] == (id, v) && forall j :: k < j < |values| ==> values[j].0 != id;
      assert front[k] == values[k];
      forall j | k < j < |front| ensures front[j].0 != id { assert front[j] == values[j]; }
    }
    if LastEntry(front, id, v) {
      var k :| 0 <= k < |front| && front[k] == (id, v) && forall j :: k < j < |front| ==> front[j].0 != id;
      forall j | k < j < |values| ensures values[j].0 != id { assert j < n ==> front[j] == values[j]; }
    }
  }

  lemma GivesMore(routes: seq<Route>, byGraph: bool, id: string, v: real)
    requires routes != []
    ensures Gives(routes, byGraph, id, v) <==>
            Gives(routes[1..], byGraph, id, v)
            || ((routes[0].name == Graph <==> byGraph) && LastEntry(routes[0].values, id, v))
  {
    assert routes == [routes[0]] + routes[1..];
  }

  /** One more route: its strength counts if it is of that kind and greater. */
  lemma OneMoreStrength(routes: seq<Route>, byGraph: bool, id: string, rest: real, s: real)
    requires routes != [] && IsStrength(routes[1..], byGraph, id, rest)
    requires 0.0 <= Strength(routes[0].values, id)
    requires s == if routes[0].name == Graph <==> byGraph then MaxReal(Strength(routes[0].values, id), rest) else rest
    ensures IsStrength(routes, byGraph, id, s)
  {
    StrengthExactly(routes[0].values, id);
    forall v ensures Gives(routes, byGraph, id, v) <==>
                     Gives(routes[1..], byGraph, id, v)
                     || ((routes[0].name == Graph <==> byGraph) && LastEntry(routes[0].values, id, v))
    {
      GivesMore(routes, byGraph, id, v);
    }
  }

  lemma {:induction false} StrengthsExactly(routes: seq<Route>, ids: set<string>, id: string)
    requires SaneRoutes(routes, ids)
    ensures IsStrength(routes, false, id, Direct(routes, id)) && IsStrength(routes, true, id, ByGraph(routes, id))
  {
    if routes != [] {
      assert routes[0] in routes;
      StrengthBound(routes[0].values, ids, id, if routes[0].name.Graph? then 0.65 else 1.0);
      StrengthsExactly(routes[1..], ids, id);
      OneMoreStrength(routes, false, id, Direct(routes[1..], id), Direct(routes, id));
      OneMoreStrength(routes, true, id, ByGraph(routes[1..], id), ByGraph(routes, id));
    }
  }

  // ---- fused ranks ----

  /** A route that ranks the card at position k, counted from 0. */
  predicate RanksAt(r: Route, id: string, k: nat) {
    k < |r.values| && r.values[k].0 == id && forall j :: 0 <= j < |r.values| && j != k ==> r.values[j].0 != id
  }

  /** Its share: one over sixty and the rank, counted from 1, among the first candidates. */
  function ShareAt(k: nat, maxCandidates: nat): real { if k < maxCandidates then 1.0 / (60 + (k + 1)) as real else 0.0 }

  lemma {:induction false} ReciprocalAt(values: seq<(string, real)>, maxCandidates: nat, id: string, i: nat, k: nat)
    requires i <= k < |values| && values[k].0 == id && forall j :: i <= j < |values| && j != k ==> values[j].0 != id
    ensures Reciprocal(values, maxCandidates, id, i) == ShareAt(k, maxCandidates)
    decreases k - i
  {
    if i < k {
      ReciprocalAt(values, maxCandidates, id, i + 1, k);
    } else {
      ReciprocalNone(values, maxCandidates, id, k + 1);
    }
  }

  lemma {:induction false} ReciprocalNone(values: seq<(string, real)>, maxCandidates: nat, id: string, i: nat)
    requires forall j :: i <= j < |values| ==> values[j].0 != id
    ensures Reciprocal(values, maxCandidates, id, i) == 0.0
    decreases |values| - i
  {
    if i < |values| { ReciprocalNone(values, maxCandidates, id, i + 1); }
  }

  /** The fused score adds up, over the routes, the share of the card's rank in each. */
  lemma {:induction false} FusedExactly(routes: seq<Route>, r: Route, maxCandidates: nat, id: string, k: nat)
    ensures Fused([], maxCandidates, id) == 0.0
    ensures RanksAt(r, id, k) ==>
              Fused(routes + [r], maxCandidates, id) == Fused(routes, maxCandidates, id) + ShareAt(k, maxCandidates)
    ensures (forall j :: 0 <= j < |r.values| ==> r.values[j].0 != id) ==>
              Fused(routes + [r], maxCandidates, id) == Fused(routes, maxCandidates, id)
  {
    if routes == [] {
      assert [] + [r] == [r] && [r][1..] == [];
      if RanksAt(r, id, k) { ReciprocalAt(r.values, maxCandidates, id, 0, k); }
      if forall j :: 0 <= j < |r.values| ==> r.values[j].0 != id { ReciprocalNone(r.values, maxCandidates, id, 0); }
    } else {
      FusedExactly(routes[1..], r, maxCandidates, id, k);
      assert (routes + [r])[1..] == routes[1..] + [r];
    }
  }

  lemma {:induction false} MaxIsAttained(routes: seq<Route>, maxCandidates: nat, ids: seq<string>)
    requires ids != []
    ensures exists id :: id in ids && Fused(routes, maxCandidates, id) == MaxFused(routes, maxCandidates, ids)
  {
    assert ids[0] in ids && Fused(routes, maxCandidates, ids[0]) >= 0.0;
    if |ids| > 1 {
      MaxIsAttained(routes, maxCandidates, ids[1..]);
      var id :| id in ids[1..] && Fused(routes, maxCandidates, id) == MaxFused(routes, maxCandidates, ids[1..]);
      assert id in ids;
    } else {
      assert MaxFused(routes, maxCandidates, ids[1..]) == 0.0;
      assert MaxFused(routes, maxCandidates, ids) == Fused(routes, maxCandidates, ids[0]);
    }
  }

  /** The best fused score of all ranked cards: one has it, and none has more. */
  ghost predicate IsBestFused(routes: seq<Route>, maxCandidates: nat, best: real) {
    && (exists id :: IsRanked(routes, maxCandidates, id) && Fused(routes, maxCandidates, id) == best)
    && (forall id :: IsRanked(routes, maxCandidates, id) ==> Fused(routes, maxCandidates, id) <= best)
  }

  lemma BestFusedExactly(routes: seq<Route>, maxCandidates: nat)
    requires exists id :: IsRanked(routes, maxCandidates, id)
    ensures IsBestFused(routes, maxCandidates, BestFused(routes, maxCandidates))
  {
    var ids := RankedIds(routes, maxCandidates);
    forall id ensures id in ids <==> IsRanked(routes, maxCandidates, id) { RankedIsListed(routes, maxCandidates, id); }
    var some :| IsRanked(routes, maxCandidates, some);
    assert some in ids;
    MaxIsAttained(routes, maxCandidates, ids);
    forall id | id in ids ensures Fused(routes, maxCandidates, id) <= BestFused(routes, maxCandidates) {
      MaxFusedIsMax(routes, maxCandidates, ids, id);
    }
  }

  // ---- the score ----

  /** The score of a ranked card: 55 parts in a hundred of its greatest direct strength, 25 of its greatest strength by
      the graph, 10 of its fused score as a share of the best one, 7 of its confidence and 3 of its importance, up
      to 1; and the routes it names are those with an entry for it. */
  ghost predicate Scores(routes: seq<Route>, maxCandidates: nat, x: Ranked, direct: real, byGraph: real, best: real) {
    && IsStrength(routes, false, x.card.id, direct) && IsStrength(routes, true, x.card.id, byGraph)
    && IsBestFused(routes, maxCandidates, best) && best > 0.0
    && (var full := 0.55 * direct + 0.25 * byGraph + 0.10 * (Fused(routes, maxCandidates, x.card.id) / best)
                    + 0.07 * x.card.confidence + 0.03 * x.card.importance;
        x.score == if full > 1.0 then 1.0 else full)
    && forall name :: name in x.routes <==>
         exists r, k :: r in routes && r.name == name && 0 <= k < |r.values| && r.values[k].0 == x.card.id
  }

  lemma ScoreExactly(routes: seq<Route>, cards: seq<Card>, maxCandidates: nat, x: Ranked)
    returns (direct: real, byGraph: real, best: real)
    requires SaneRoutes(routes, Ids(cards)) && IsRated(routes, cards, maxCandidates, x)
    ensures Scores(routes, maxCandidates, x, direct, byGraph, best)
    ensures x.card in cards
  {
    var id := x.card.id;
    direct, byGraph, best := Direct(routes, id), ByGraph(routes, id), BestFused(routes, maxCandidates);
    StrengthsExactly(routes, Ids(cards), id);
    BestFusedExactly(routes, maxCandidates);
    RoutesExactly(routes, id);
  }

  lemma RoutesExactly(routes: seq<Route>, id: string)
    ensures forall name :: name in RoutesOf(routes, id) <==>
              exists r, k :: r in routes && r.name == name && 0 <= k < |r.values| && r.values[k].0 == id
  {
    forall name | name in RoutesOf(routes, id)
      ensures exists r, k :: r in routes && r.name == name && 0 <= k < |r.values| && r.values[k].0 == id
    {
      var r :| r in routes && r.name == name && exists v :: v in r.values && v.0 == id;
      var v :| v in r.values && v.0 == id;
      var k :| 0 <= k < |r.values| && r.values[k] == v;
    }
    forall name, r, k | r in routes && r.name == name && 0 <= k < |r.values| && r.values[k].0 == id
      ensures name in RoutesOf(routes, id)
    {
      assert r.values[k] in r.values;
    }
  }

  // ---- the order ----

  /** The higher score first, then the smaller identifier. */
  predicate Before(a: (string, real), b: (string, real)) { a.1 > b.1 || (a.1 == b.1 && Precedes(a.0, b.0)) }

  ghost predicate InOrder(values: seq<(string, real)>) {
    forall i, j :: 0 <= i < j < |values| ==> Before(values[i], values[j])
  }

  lemma OrderExactly(ranked: seq<Ranked>)
    requires Sorted(ranked, Better)
    ensures forall i, j :: 0 <= i < j < |ranked| ==>
              Before((ranked[i].card.id, ranked[i].score), (ranked[j].card.id, ranked[j].score))
  {
    forall i, j | 0 <= i < j < |ranked|
      ensures Before((ranked[i].card.id, ranked[i].score), (ranked[j].card.id, ranked[j].score))
    {
      StrLeqExactly(ranked[i].card.id, ranked[j].card.id);
      assert Better(ranked[i], ranked[j]);
    }
  }

  lemma SortedInOrder(values: seq<(string, real)>)
    requires Sorted(values, Stronger)
    ensures InOrder(values)
  {
    forall i, j | 0 <= i < j < |values| ensures Before(values[i], values[j]) {
      StrLeqExactly(values[i].0, values[j].0);
      assert Stronger(values[i], values[j]);
    }
  }

  // ---- the direct routes ----

  /** The cards that a measure finds, with what it finds, the strongest first. */
  ghost predicate Found(values: seq<(string, real)>, cards: seq<Card>, measure: Card -> real) {
    && InOrder(values)
    && (forall v :: v in values <==> exists c :: c in cards && measure(c) > 0.0 && v == (c.id, measure(c)))
  }

  lemma {:induction false} HitsExactly(cards: seq<Card>, measure: Card -> real)
    ensures forall v :: v in Hits(cards, measure) <==>
              exists c :: c in cards && measure(c) > 0.0 && v == (c.id, measure(c))
  {
    if cards != [] {
      HitsExactly(cards[1..], measure);
      var hits, rest := Hits(cards, measure), Hits(cards[1..], measure);
      forall v ensures v in hits <==> exists c :: c in cards && measure(c) > 0.0 && v == (c.id, measure(c)) {
        if v in hits && v !in rest { assert cards[0] in cards && v == (cards[0].id, measure(cards[0])); }
        if c :| c in cards && measure(c) > 0.0 && v == (c.id, measure(c)) {
          if c != cards[0] { assert c in cards[1..]; }
        }
      }
    }
  }

  lemma FoundExactly(cards: seq<Card>, measure: Card -> real)
    ensures Found(Sort(Hits(cards, measure), Stronger), cards, measure)
  {
    StrongerIsPreorder();
    SortCorrect(Hits(cards, measure), Stronger);
    SortElements(Hits(cards, measure), Stronger);
    SortedInOrder(Sort(Hits(cards, measure), Stronger));
    HitsExactly(cards, measure);
  }

  lemma {:induction false} UsableExactly(ranking: seq<(string, real)>, ids: set<string>)
    ensures forall v :: v in Usable(ranking, ids) <==> v in ranking && v.0 in ids && 0.0 < v.1 <= 1.0
  {
    if ranking != [] {
      UsableExactly(ranking[1..], ids);
      assert ranking == [ranking[0]] + ranking[1..];
    }
  }

  /** A provider's answers that name a candidate and lie between 0 and 1, the strongest first. */
  ghost predicate UsedAnswers(values: seq<(string, real)>, answers: seq<(string, real)>, ids: set<string>) {
    InOrder(values) && forall v :: v in values <==> v in answers && v.0 in ids && 0.0 < v.1 <= 1.0
  }

  /** The lexical ranking as it comes, each score as a share of the first one. */
  ghost predicate AreShares(values: seq<(string, real)>, ranking: seq<(string, real)>) {
    |values| == |ranking| && forall i :: 0 <= i < |values| ==>
      values[i].0 == ranking[i].0 && (ranking[0].1 != 0.0 ==> values[i].1 == ranking[i].1 / ranking[0].1)
  }

  /** The direct routes are those of these four that find anything, in this order. */
  lemma DirectRoutesExactly(cards: seq<Card>, host: Host)
    returns (lexical: seq<(string, real)>, semantic: seq<(string, real)>, exact: seq<(string, real)>,
             overlap: seq<(string, real)>)
    ensures AreShares(lexical, host.lexical(cards))
    ensures if host.semantic.Some? then UsedAnswers(semantic, host.semantic.value(cards), set c | c in cards :: c.id)
            else semantic == []
    ensures Found(exact, cards, host.exact) && Found(overlap, cards, host.overlap)
    ensures DirectRoutes(cards, host) ==
            (if lexical == [] then [] else [Route(Lexical, lexical)])
            + (if semantic == [] then [] else [Route(Semantic, semantic)])
            + (if exact == [] then [] else [Route(ExactAnchor, exact)])
            + (if overlap == [] then [] else [Route(CueOverlap, overlap)])
  {
    lexical, semantic := Shares(host.lexical(cards)), SemanticHits(cards, host);
    exact, overlap := Sort(Hits(cards, host.exact), Stronger), Sort(Hits(cards, host.overlap), Stronger);
    FoundExactly(cards, host.exact);
    FoundExactly(cards, host.overlap);
    if host.semantic.Some? { AnswersExactly(host.semantic.value(cards), Ids(cards)); }
  }

  lemma AnswersExactly(answers: seq<(string, real)>, ids: set<string>)
    ensures UsedAnswers(Sort(Usable(answers, ids), Stronger), answers, ids)
  {
    StrongerIsPreorder();
    SortCorrect(Usable(answers, ids), Stronger);
    SortElements(Usable(answers, ids), Stronger);
    SortedInOrder(Sort(Usable(answers, ids), Stronger));
    UsableExactly(answers, ids);
  }

  /** The routes of the graph: the cards reached, the strongest first, and those that led there, each with a half. */
  lemma GraphRoutesExactly(strength: map<string, real>, graphSeeds: seq<string>)
    returns (hits: seq<(string, real)>, halves: seq<(string, real)>)
    ensures InOrder(hits) && forall v :: v in hits <==> v.0 in strength && v.1 == strength[v.0]
    ensures |halves| == |graphSeeds| && forall i :: 0 <= i < |halves| ==> halves[i] == (graphSeeds[i], 0.5)
    ensures GraphRoutes(strength, graphSeeds) ==
            if strength == map[] then [] else [Route(Graph, hits), Route(GraphSeed, halves)]
  {
    hits, halves := GraphHits(strength), Halves(graphSeeds);
    GraphHitsExact(strength);
    StrLeqIsTotalOrder();
    StrongerIsPreorder();
    SortCorrect(Pairs(strength, SortSet(strength.Keys, StrLeq)), Stronger);
    SortedInOrder(hits);
  }

  // ---- the filters ----

  /** What the hard filters ask of a card, in full. */
  lemma FiltersExactly(c: Card, q: Query, p: Policy, origins: string -> seq<string>)
    ensures Eligible(c, q, p, origins) <==>
            && c.active && c.confidence >= p.minConfidence
            && (c.validFrom.Some? ==> c.validFrom.value <= q.moment)
            && (c.validTo.Some? ==> q.moment < c.validTo.value)
            && (c.scope == "global" || (c.scope, c.scopeKey) in q.scopes || (q.scopes == [] && !p.requireExplicitScope))
            && (q.authority == Retrieval.NoAuthority || c.authority == Retrieval.Act || c.authority == q.authority)
            && exists i :: 0 <= i < |origins(c.id)| && origins(c.id)[i] in p.trustedOrigins
  {
    if Trusted(origins(c.id), p) {
      var o :| o in origins(c.id) && o in p.trustedOrigins;
      var i :| 0 <= i < |origins(c.id)| && origins(c.id)[i] == o;
    }
  }
}
