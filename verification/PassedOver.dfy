/** A retrieval in which the best-ranked card is passed over, from the store's answers to the decision. */
module PassedOver {
  import opened CanonicalJson
  import opened Ordering
  import opened GraphExpansion
  import opened Retrieval

  /** a fits the question best and has no relations; c fits it less well and has one to b, which does not fit it. */
  function CardOf(id: string): Card { Card(id, true, "global", "", Inform, 1.0, 1.0, None, None) }

  function Cards(a: string, b: string, c: string): seq<Card> { [CardOf(a), CardOf(b), CardOf(c)] }

  function StoreOf(a: string, b: string, c: string): Host {
    Host((id: string) => [], (id: string) => if id == b || id == c then [Edge(c, b)] else [],
         (cards: seq<Card>) => if cards == Cards(a, b, c) then [(a, 2.0), (c, 1.0)] else [], None,
         (card: Card) => 0.0, (card: Card) => if card.id == a then 1.0 else if card.id == c then 0.5 else 0.0,
         (card: Card) => 0.0, true)
  }

  /** The numbers of the default policy. */
  predicate IsDefault(p: Policy) {
    p.minScore == 0.42 && p.minMargin == 0.035 && p.maxCandidates == 24 && p.graphDepth == 1
  }

  function Found(a: string, c: string): seq<(string, real)> { [(a, 1.0), (c, 0.5)] }

  function RoutesTo(a: string, b: string, c: string): seq<Route> {
    [Route(Lexical, Found(a, c)), Route(CueOverlap, Found(a, c)), Route(Graph, [(b, 0.65)]),
     Route(GraphSeed, [(c, 0.5)])]
  }

  // ---- the routes ----

  lemma InOrder(x: (string, real), y: (string, real), leq: ((string, real), (string, real)) -> bool)
    requires leq(x, y)
    ensures Sort([x, y], leq) == [x, y] && Sort([x], leq) == [x]
  {
    assert [x, y][1..] == [y] && [y][1..] == [] && [x][1..] == [];
    assert Insert(y, [], leq) == [y];
    assert Sort([y], leq) == [y];
    assert Insert(x, [y], leq) == [x] + [y];
  }

  lemma DirectOnes(a: string, b: string, c: string)
    requires a != b && b != c && a != c
    ensures DirectRoutes(Cards(a, b, c), StoreOf(a, b, c)) ==
            [Route(Lexical, Found(a, c)), Route(CueOverlap, Found(a, c))]
  {
    var cards, host := Cards(a, b, c), StoreOf(a, b, c);
    assert Shares(host.lexical(cards)) == Found(a, c);
    OverlapHits(a, b, c, cards, host);
    InOrder((a, 1.0), (c, 0.5), Stronger);
    assert Sort([], Stronger) == [];
  }

  lemma OverlapHits(a: string, b: string, c: string, cards: seq<Card>, host: Host)
    requires a != b && b != c && a != c && cards == Cards(a, b, c) && host == StoreOf(a, b, c)
    ensures Hits(cards, host.overlap) == Found(a, c) && Hits(cards, host.exact) == []
  {
    assert cards[1..] == [CardOf(b), CardOf(c)] && cards[1..][1..] == [CardOf(c)] && cards[1..][1..][1..] == [];
    assert Hits([CardOf(c)], host.overlap) == [(c, 0.5)] && Hits([CardOf(c)], host.exact) == [];
    assert Hits(cards[1..], host.overlap) == [(c, 0.5)] && Hits(cards[1..], host.exact) == [];
  }

  lemma GraphOnes(b: string, c: string)
    ensures GraphRoutes(map[b := 0.65], [c]) == [Route(Graph, [(b, 0.65)]), Route(GraphSeed, [(c, 0.5)])]
  {
    StrLeqIsTotalOrder();
    var strength := map[b := 0.65];
    assert strength != map[] by { assert b in strength; }
    assert strength.Keys == {b};
    var ids := SortSet({b}, StrLeq);
    assert |ids| == 1 && ids[0] in ids;
    assert ids == [b] && ids[1..] == [];
    assert Pairs(strength, [b]) == [(b, 0.65)];
    InOrder((b, 0.65), (b, 0.65), Stronger);
    assert GraphHits(strength) == Sort(Pairs(strength, ids), Stronger) == [(b, 0.65)];
    assert Halves([c]) == [(c, 0.5)];
  }

  lemma OneHop(a: string, b: string, c: string, relations: Relations, id: string)
    requires a != b && b != c && a != c
    requires relations == StoreOf(a, b, c).relations
    ensures id in Ball(relations, {a, b, c}, {a, c}, 0) <==> id == a || id == c
    ensures id in Ball(relations, {a, b, c}, {a, c}, 1) <==> id == a || id == b || id == c
  {
    assert Edge(c, b) in relations(c) && Other(c, Edge(c, b)) == b;
    assert Linked(relations, c, b) && Reaches(relations, {a, c}, b);
  }

  lemma OnlyOneIsReached(a: string, b: string, c: string, relations: Relations, id: string)
    requires a != b && b != c && a != c && relations == StoreOf(a, b, c).relations
    ensures id == b <==> id !in {a, c} && Within(relations, {a, b, c}, {a, c}, id, 1)
  {
    OneHop(a, b, c, relations, id);
    BallIsWithin(relations, {a, b, c}, {a, c}, id, 1);
  }

  lemma ItIsOneHopAway(a: string, b: string, c: string, relations: Relations)
    requires a != b && b != c && a != c && relations == StoreOf(a, b, c).relations
    ensures IsShare(relations, {a, b, c}, {a, c}, 1, b, 0.65)
  {
    OneHop(a, b, c, relations, b);
  }

  lemma ItIsLed(a: string, b: string, c: string, relations: Relations)
    requires relations == StoreOf(a, b, c).relations
    ensures Led(relations, [c], {b})
  {
    assert Edge(c, b) in relations(c) && Other(c, Edge(c, b)) == b;
    assert Linked(relations, c, b);
    assert LedBy(relations, [c], b) && Leads(relations, {b}, c);
  }

  lemma Expands(a: string, b: string, c: string, p: Policy)
    requires a != b && b != c && a != c && IsDefault(p)
    ensures ByExpansion(Cards(a, b, c), p, StoreOf(a, b, c), {a, c}, map[b := 0.65], [c])
  {
    var cards, relations := Cards(a, b, c), StoreOf(a, b, c).relations;
    assert Ids(cards) == {a, b, c} by { assert cards[0] in cards && cards[1] in cards && cards[2] in cards; }
    forall id ensures id == b <==> id !in {a, c} && Within(relations, Ids(cards), {a, c}, id, 1) {
      OnlyOneIsReached(a, b, c, relations, id);
    }
    ItIsOneHopAway(a, b, c, relations);
    ItIsLed(a, b, c, relations);
    assert (map[b := 0.65]).Keys == {b};
  }

  lemma SeedsOfDirect(a: string, c: string)
    ensures Seeds([Route(Lexical, Found(a, c)), Route(CueOverlap, Found(a, c))]) == {a, c}
  {
    var routes := [Route(Lexical, Found(a, c)), Route(CueOverlap, Found(a, c))];
    assert routes[0] in routes && routes[0].values[0].0 == a && routes[0].values[1].0 == c;
  }

  lemma StoreIsSane(a: string, b: string, c: string)
    ensures SaneHost(StoreOf(a, b, c), Cards(a, b, c))
  {
    var cards := Cards(a, b, c);
    assert cards[0] in cards && cards[2] in cards;
  }

  lemma RoutedByExpansion(a: string, b: string, c: string, cards: seq<Card>, p: Policy, host: Host, direct: seq<Route>)
    requires a != b && b != c && a != c && IsDefault(p) && cards == Cards(a, b, c) && host == StoreOf(a, b, c)
    requires direct == DirectRoutes(cards, host) && Seeds(direct) == {a, c}
    ensures Routed(direct + GraphRoutes(map[b := 0.65], [c]), cards, p, host)
  {
    Expands(a, b, c, p);
    AreRouted(direct, cards, p, host, {a, c}, map[b := 0.65], [c]);
  }

  lemma RoutesAre(a: string, b: string, c: string) returns (direct: seq<Route>)
    requires a != b && b != c && a != c
    ensures direct == DirectRoutes(Cards(a, b, c), StoreOf(a, b, c)) && Seeds(direct) == {a, c}
    ensures RoutesTo(a, b, c) == direct + GraphRoutes(map[b := 0.65], [c])
  {
    direct := [Route(Lexical, Found(a, c)), Route(CueOverlap, Found(a, c))];
    DirectOnes(a, b, c);
    GraphOnes(b, c);
    SeedsOfDirect(a, c);
  }

  /** What the store answers makes exactly these routes. */
  lemma RoutesComeAbout(a: string, b: string, c: string, p: Policy)
    requires a != b && b != c && a != c && IsDefault(p)
    ensures Routed(RoutesTo(a, b, c), Cards(a, b, c), p, StoreOf(a, b, c))
  {
    var direct := RoutesAre(a, b, c);
    RoutedByExpansion(a, b, c, Cards(a, b, c), p, StoreOf(a, b, c), direct);
  }

  // ---- the scores ----

  lemma {:induction false} MaxIs(routes: seq<Route>, maxCandidates: nat, ids: seq<string>, id: string)
    requires id in ids && forall x :: x in ids ==> Fused(routes, maxCandidates, x) <= Fused(routes, maxCandidates, id)
    ensures MaxFused(routes, maxCandidates, ids) == Fused(routes, maxCandidates, id)
  {
    MaxFusedIsMax(routes, maxCandidates, ids, id);
    MaxIsAtMost(routes, maxCandidates, ids, Fused(routes, maxCandidates, id));
  }

  lemma {:induction false} MaxIsAtMost(routes: seq<Route>, maxCandidates: nat, ids: seq<string>, bound: real)
    requires bound >= 0.0 && forall x :: x in ids ==> Fused(routes, maxCandidates, x) <= bound
    ensures MaxFused(routes, maxCandidates, ids) <= bound
  {
    if ids != [] { MaxIsAtMost(routes, maxCandidates, ids[1..], bound); }
  }

  lemma RanksOfTwo(values: seq<(string, real)>, x: string, y: string, id: string)
    requires |values| == 2 && values[0].0 == x && values[1].0 == y && x != y
    ensures Reciprocal(values, 24, id, 0) == if id == x then 1.0 / 61.0 else if id == y then 1.0 / 62.0 else 0.0
  {
    assert Reciprocal(values, 24, id, 2) == 0.0;
    assert Reciprocal(values, 24, id, 1) == if id == y then 1.0 / 62.0 else 0.0;
  }

  lemma RankOfOne(values: seq<(string, real)>, x: string, id: string)
    requires |values| == 1 && values[0].0 == x
    ensures Reciprocal(values, 24, id, 0) == if id == x then 1.0 / 61.0 else 0.0
  {
    assert Reciprocal(values, 24, id, 1) == 0.0;
  }

  lemma FusedOf(a: string, b: string, c: string, routes: seq<Route>, id: string)
    requires a != b && b != c && a != c && routes == RoutesTo(a, b, c)
    ensures Fused(routes, 24, id) == if id == a then 2.0 / 61.0 else if id == b then 1.0 / 61.0
                                     else if id == c then 2.0 / 62.0 + 1.0 / 61.0 else 0.0
  {
    var two, three, four := routes[1..], routes[2..], routes[3..];
    assert routes[1..][1..] == three && routes[2..][1..] == four && four[1..] == [];
    RanksOfTwo(Found(a, c), a, c, id);
    RankOfOne(routes[2].values, b, id);
    RankOfOne(routes[3].values, c, id);
    assert Fused(four, 24, id) == Reciprocal(routes[3].values, 24, id, 0);
    assert Fused(three, 24, id) == Reciprocal(routes[2].values, 24, id, 0) + Fused(four, 24, id);
    assert Fused(two, 24, id) == Reciprocal(Found(a, c), 24, id, 0) + Fused(three, 24, id);
  }

  lemma StrengthOfTwo(a: string, c: string, id: string)
    requires a != c
    ensures Strength(Found(a, c), id) == if id == c then 0.5 else if id == a then 1.0 else 0.0
  {
    assert Found(a, c)[..1] == [(a, 1.0)] && [(a, 1.0)][..0] == [];
    assert Strength([(a, 1.0)], id) == if id == a then 1.0 else 0.0;
  }

  lemma StrengthOfOne(x: string, strength: real, id: string)
    ensures Strength([(x, strength)], id) == if id == x then strength else 0.0
  {
    assert [(x, strength)][..0] == [];
  }

  lemma StrengthsOf(a: string, b: string, c: string, routes: seq<Route>, id: string)
    requires a != b && b != c && a != c && routes == RoutesTo(a, b, c)
    ensures Direct(routes, id) == if id == a then 1.0 else if id == c then 0.5 else 0.0
    ensures ByGraph(routes, id) == if id == b then 0.65 else 0.0
  {
    assert routes[1..][1..] == routes[2..] && routes[2..][1..] == routes[3..] && routes[3..][1..] == [];
    StrengthOfTwo(a, c, id);
    StrengthOfOne(b, 0.65, id);
    StrengthOfOne(c, 0.5, id);
    assert Direct(routes[3..], id) == if id == c then 0.5 else 0.0;
    assert Direct(routes[2..], id) == if id == c then 0.5 else 0.0;
    assert Direct(routes[1..], id) == if id == a then 1.0 else if id == c then 0.5 else 0.0;
    assert ByGraph(routes[3..], id) == 0.0;
    assert ByGraph(routes[2..], id) == if id == b then 0.65 else 0.0;
    assert ByGraph(routes[1..], id) == if id == b then 0.65 else 0.0;
  }

  lemma RankedOnes(a: string, b: string, c: string, routes: seq<Route>, id: string)
    requires routes == RoutesTo(a, b, c)
    ensures IsRanked(routes, 24, id) <==> id == a || id == b || id == c
  {
    assert routes[0] in routes && routes[2] in routes;
    assert InRanking(routes[0].values, 24, a) by { assert routes[0].values[0].0 == a; }
    assert InRanking(routes[0].values, 24, c) by { assert routes[0].values[1].0 == c; }
    assert InRanking(routes[2].values, 24, b) by { assert routes[2].values[0].0 == b; }
  }

  lemma BestFusedIs(a: string, b: string, c: string, routes: seq<Route>)
    requires a != b && b != c && a != c && routes == RoutesTo(a, b, c)
    ensures BestFused(routes, 24) == 2.0 / 62.0 + 1.0 / 61.0
  {
    var ids := RankedIds(routes, 24);
    forall id ensures id in ids <==> id == a || id == b || id == c {
      RankedIsListed(routes, 24, id);
      RankedOnes(a, b, c, routes, id);
    }
    forall id | id in ids ensures Fused(routes, 24, id) <= Fused(routes, 24, c) {
      FusedOf(a, b, c, routes, id);
      FusedOf(a, b, c, routes, c);
    }
    FusedOf(a, b, c, routes, c);
    MaxIs(routes, 24, ids, c);
  }

  // ---- the ranking ----

  function Score(id: string, a: string, b: string): real {
    var most := 2.0 / 62.0 + 1.0 / 61.0;
    if id == a then 0.55 + 0.1 * (2.0 / 61.0 / most) + 0.1
    else if id == b then 0.25 * 0.65 + 0.1 * (1.0 / 61.0 / most) + 0.1
    else 0.55 * 0.5 + 0.1 + 0.1
  }

  function RankedOf(routes: seq<Route>, id: string, a: string, b: string): Ranked {
    Ranked(CardOf(id), Score(id, a, b), RoutesOf(routes, id))
  }

  function Ranking(a: string, b: string, c: string): seq<Ranked> {
    var routes := RoutesTo(a, b, c);
    [RankedOf(routes, a, a, b), RankedOf(routes, c, a, b), RankedOf(routes, b, a, b)]
  }

  lemma ScoresFall(a: string, b: string, c: string)
    requires a != b && b != c && a != c
    ensures 1.0 > Score(a, a, b) > 0.7 > Score(c, a, b) > 0.4 > Score(b, a, b) > 0.25
  {
    var most := 2.0 / 62.0 + 1.0 / 61.0;
    assert 0.5 < 2.0 / 61.0 / most < 1.0;
    assert 0.0 < 1.0 / 61.0 / most < 1.0;
  }

  lemma RatedAs(a: string, b: string, c: string, routes: seq<Route>, id: string)
    requires a != b && b != c && a != c && routes == RoutesTo(a, b, c) && (id == a || id == b || id == c)
    ensures IsRated(routes, Cards(a, b, c), 24, RankedOf(routes, id, a, b))
  {
    FusedOf(a, b, c, routes, id);
    FusedOf(a, b, c, routes, c);
    StrengthsOf(a, b, c, routes, id);
    BestFusedIs(a, b, c, routes);
    RankedOnes(a, b, c, routes, id);
    ScoresFall(a, b, c);
    CardById(a, b, c, id);
  }

  lemma CardById(a: string, b: string, c: string, id: string)
    requires a != b && b != c && a != c && (id == a || id == b || id == c)
    ensures id in ById(Cards(a, b, c)) && ById(Cards(a, b, c))[id] == CardOf(id)
  {
    var cards := Cards(a, b, c);
    assert cards[0] in cards && cards[1] in cards && cards[2] in cards;
    assert id in Ids(cards);
  }

  lemma InFallingOrder(x: Ranked, y: Ranked, z: Ranked)
    requires x.score > y.score > z.score
    ensures Sorted([x, y, z], Better)
  {
  }

  lemma OneOfThree(ranked: seq<Ranked>, x: Ranked)
    requires |ranked| == 3 && x in ranked
    ensures x == ranked[0] || x == ranked[1] || x == ranked[2]
  {
  }

  lemma EachIsRated(a: string, b: string, c: string, routes: seq<Route>, ranked: seq<Ranked>, x: Ranked)
    requires a != b && b != c && a != c && routes == RoutesTo(a, b, c) && ranked == Ranking(a, b, c) && x in ranked
    ensures IsRated(routes, Cards(a, b, c), 24, x)
  {
    OneOfThree(ranked, x);
    RatedAs(a, b, c, routes, x.card.id);
  }

  lemma EachIsListed(a: string, b: string, c: string, routes: seq<Route>, ranked: seq<Ranked>, id: string)
    requires routes == RoutesTo(a, b, c) && ranked == Ranking(a, b, c) && IsRanked(routes, 24, id)
    ensures Listed(ranked, id)
  {
    RankedOnes(a, b, c, routes, id);
    assert ranked[0] in ranked && ranked[1] in ranked && ranked[2] in ranked;
  }

  /** The ranking of these routes: a, then c, then b, which only the graph reaches. */
  lemma IsTheRanking(a: string, b: string, c: string, routes: seq<Route>, ranked: seq<Ranked>)
    requires a != b && b != c && a != c && routes == RoutesTo(a, b, c) && ranked == Ranking(a, b, c)
    ensures Sorted(ranked, Better) && AllRated(routes, Cards(a, b, c), 24, ranked)
  {
    ScoresFall(a, b, c);
    InFallingOrder(ranked[0], ranked[1], ranked[2]);
    forall x | x in ranked ensures IsRated(routes, Cards(a, b, c), 24, x) { EachIsRated(a, b, c, routes, ranked, x); }
    forall id | IsRanked(routes, 24, id) ensures Listed(ranked, id) { EachIsListed(a, b, c, routes, ranked, id); }
  }

  lemma RoutesOfEach(a: string, b: string, c: string, routes: seq<Route>)
    requires a != b && b != c && a != c && routes == RoutesTo(a, b, c)
    ensures Graph !in RoutesOf(routes, a) && GraphSeed !in RoutesOf(routes, a)
    ensures Graph in RoutesOf(routes, b) && GraphSeed in RoutesOf(routes, c)
  {
    assert routes[2] in routes && routes[2].values[0] in routes[2].values;
    assert routes[3] in routes && routes[3].values[0] in routes[3].values;
  }

  /** Under the default policy a question that asks for a chain gets c and b, and not a, which fits it best. */
  lemma BestIsPassedOverInARun(a: string, b: string, c: string, p: Policy)
    requires a != b && b != c && a != c && IsDefault(p)
    ensures var cards, host, routes, ranked := Cards(a, b, c), StoreOf(a, b, c), RoutesTo(a, b, c), Ranking(a, b, c);
            && SaneHost(host, cards) && Routed(routes, cards, p, host)
            && Sorted(ranked, Better) && AllRated(routes, cards, p.maxCandidates, ranked)
            && Decide(p, 2, ranked, None, 0.0, host.asksForChain) == UseMemory([ranked[1], ranked[2]])
  {
    var routes, ranked := RoutesTo(a, b, c), Ranking(a, b, c);
    StoreIsSane(a, b, c);
    RoutesComeAbout(a, b, c, p);
    IsTheRanking(a, b, c, routes, ranked);
    RoutesOfEach(a, b, c, routes);
    ScoresFall(a, b, c);
    BestIsPassedOver(ranked[0], ranked[1], ranked[2], p, 0.0);
  }
}
