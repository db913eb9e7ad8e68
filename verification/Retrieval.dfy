/** Evidence-bound retrieval: hard filters, fused routes, and the decision to use or not to use memory. */
module Retrieval {
  import opened CanonicalJson
  import opened Ordering
  import opened Text
  import opened GraphExpansion

  datatype Authority = NoAuthority | Inform | Act

  function AuthorityRank(a: Authority): nat { match a case NoAuthority => 0 case Inform => 1 case Act => 2 }

  datatype Card = Card(id: string, active: bool, scope: string, scopeKey: string, authority: Authority,
                       confidence: real, importance: real, validFrom: Option<int>, validTo: Option<int>)

  datatype Query = Query(text: string, scopes: seq<(string, string)>, moment: int, authority: Authority, limit: int)

  datatype Policy = Policy(minConfidence: real, minScore: real, minMargin: real, maxCandidates: nat, graphDepth: nat,
                           requireExplicitScope: bool, trustedOrigins: set<string>)

  /** What the store and the similarity measures answer; a semantic provider may answer anything. */
  datatype Host = Host(origins: string -> seq<string>, relations: Relations,
                       lexical: seq<Card> -> seq<(string, real)>, semantic: Option<seq<Card> -> seq<(string, real)>>,
                       exact: Card -> real, overlap: Card -> real, similarity: Card -> real, asksForChain: bool)

  // ---- the hard filters ----

  predicate ScopeMatches(c: Card, q: Query, p: Policy) {
    c.scope == "global" || (if q.scopes == [] then !p.requireExplicitScope else (c.scope, c.scopeKey) in q.scopes)
  }

  predicate Trusted(origins: seq<string>, p: Policy) { exists o :: o in origins && o in p.trustedOrigins }

  /** In scope, confident, authorised and backed by trusted evidence. */
  predicate Admitted(c: Card, q: Query, p: Policy, origins: string -> seq<string>) {
    && c.confidence >= p.minConfidence && ScopeMatches(c, q, p)
    && AuthorityRank(c.authority) >= AuthorityRank(q.authority) && Trusted(origins(c.id), p)
  }

  predicate ValidAt(c: Card, moment: int) {
    (c.validFrom.Some? ==> c.validFrom.value <= moment) && (c.validTo.Some? ==> moment < c.validTo.value)
  }

  predicate Eligible(c: Card, q: Query, p: Policy, origins: string -> seq<string>) {
    Admitted(c, q, p, origins) && c.active && ValidAt(c, q.moment)
  }

  ghost function AdmittedBy(q: Query, p: Policy, origins: string -> seq<string>): Card -> bool {
    (c: Card) => Admitted(c, q, p, origins)
  }

  ghost function EligibleBy(q: Query, p: Policy, origins: string -> seq<string>): Card -> bool {
    (c: Card) => Eligible(c, q, p, origins)
  }

  /** The loop over the cards of the store: what the filters let through, in the order of the store. */
  method Candidates(all: seq<Card>, q: Query, p: Policy, origins: string -> seq<string>)
    returns (scoped: seq<Card>, eligible: seq<Card>)
    ensures scoped == Filter(all, AdmittedBy(q, p, origins)) && eligible == Filter(all, EligibleBy(q, p, origins))
    ensures forall c :: c in scoped <==> c in all && Admitted(c, q, p, origins)
    ensures forall c :: c in eligible <==> c in all && Eligible(c, q, p, origins)
  {
    scoped, eligible := [], [];
    ghost var admitted, inForce := AdmittedBy(q, p, origins), EligibleBy(q, p, origins);
    for i := 0 to |all|
      invariant scoped == Filter(all[..i], admitted) && eligible == Filter(all[..i], inForce)
    {
      var card := all[i];
      assert all[..i + 1] == all[..i] + [card];
      OneMoreFiltered(all[..i], card, admitted);
      OneMoreFiltered(all[..i], card, inForce);
      if card.confidence < p.minConfidence { continue; }
      if !ScopeMatches(card, q, p) { continue; }
      if AuthorityRank(card.authority) < AuthorityRank(q.authority) { continue; }
      if !Trusted(origins(card.id), p) { continue; }
      scoped := scoped + [card];
      if !card.active || !ValidAt(card, q.moment) { continue; }
      eligible := eligible + [card];
    }
    assert all[..|all|] == all;
    forall c ensures c in scoped <==> c in all && Admitted(c, q, p, origins) { InFilter(all, admitted, c); }
    forall c ensures c in eligible <==> c in all && Eligible(c, q, p, origins) { InFilter(all, inForce, c); }
  }

  lemma OneMoreFiltered(cards: seq<Card>, card: Card, keep: Card -> bool)
    ensures Filter(cards + [card], keep) == Filter(cards, keep) + if keep(card) then [card] else []
  {
    FilterConcat(cards, [card], keep);
    FilterOne(card, keep);
  }

  // ---- the routes ----

  datatype RouteName = Lexical | Semantic | ExactAnchor | CueOverlap | Graph | GraphSeed
  datatype Route = Route(name: RouteName, values: seq<(string, real)>)

  function Ids(cards: seq<Card>): set<string> { set c | c in cards :: c.id }

  /** Every id is that of a candidate and every strength lies between 0 and the bound. */
  predicate Sane(values: seq<(string, real)>, ids: set<string>, bound: real) {
    forall v :: v in values ==> v.0 in ids && 0.0 <= v.1 <= bound
  }

  /** Lexical scores as a share of the best one. */
  function Shares(ranking: seq<(string, real)>): seq<(string, real)> {
    seq(|ranking|, i requires 0 <= i < |ranking| =>
      (ranking[i].0, if ranking[0].1 == 0.0 then 0.0 else ranking[i].1 / ranking[0].1))
  }

  /** Semantic answers for other cards or out of range are dropped. */
  function Usable(ranking: seq<(string, real)>, ids: set<string>): (r: seq<(string, real)>)
    ensures Sane(r, ids, 1.0)
  {
    if ranking == [] then [] else
      (if ranking[0].0 in ids && 0.0 < ranking[0].1 <= 1.0 then [ranking[0]] else []) + Usable(ranking[1..], ids)
  }

  function Hits(cards: seq<Card>, measure: Card -> real): seq<(string, real)> {
    if cards == [] then [] else
      (if measure(cards[0]) > 0.0 then [(cards[0].id, measure(cards[0]))] else []) + Hits(cards[1..], measure)
  }

  function Present(name: RouteName, values: seq<(string, real)>): seq<Route> {
    if values == [] then [] else [Route(name, values)]
  }

  function DirectRoutes(cards: seq<Card>, host: Host): seq<Route> {
    Present(Lexical, Shares(host.lexical(cards)))
    + Present(Semantic, SemanticHits(cards, host))
    + Present(ExactAnchor, Sort(Hits(cards, host.exact), Stronger))
    + Present(CueOverlap, Sort(Hits(cards, host.overlap), Stronger))
  }

  /** What the lexical ranking and the anchor measures guarantee by construction. */
  ghost predicate SaneHost(host: Host, cards: seq<Card>) {
    var lexical := host.lexical(cards);
    && (forall v :: v in lexical ==> v.0 in Ids(cards) && 0.0 < v.1 <= lexical[0].1)
    && (forall c :: c in cards ==> 0.0 <= host.exact(c) <= 1.0 && 0.0 <= host.overlap(c) <= 1.0)
  }

  ghost predicate SaneRoutes(routes: seq<Route>, ids: set<string>) {
    forall r :: r in routes ==> Sane(r.values, ids, if r.name.Graph? then 0.65 else 1.0)
  }

  lemma SharesAreSane(ranking: seq<(string, real)>, ids: set<string>)
    requires forall v :: v in ranking ==> v.0 in ids && 0.0 < v.1 <= ranking[0].1
    ensures Sane(Shares(ranking), ids, 1.0)
  {
    forall i | 0 <= i < |ranking| ensures Shares(ranking)[i].0 in ids && 0.0 <= Shares(ranking)[i].1 <= 1.0 {
      assert ranking[i] in ranking && ranking[0] in ranking;
      assert ranking[i].1 / ranking[0].1 <= 1.0;
    }
  }

  lemma {:induction false} HitsAreSane(cards: seq<Card>, measure: Card -> real)
    requires forall c :: c in cards ==> 0.0 <= measure(c) <= 1.0
    ensures Sane(Hits(cards, measure), Ids(cards), 1.0)
  {
    if cards != [] { HitsAreSane(cards[1..], measure); }
  }

  lemma SortedIsSane(values: seq<(string, real)>, ids: set<string>)
    requires Sane(values, ids, 1.0)
    ensures Sane(Sort(values, Stronger), ids, 1.0)
  {
    StrongerIsPreorder();
    SortElements(values, Stronger);
  }

  lemma PresentAreSane(lexical: seq<(string, real)>, semantic: seq<(string, real)>, exact: seq<(string, real)>,
                       overlap: seq<(string, real)>, routes: seq<Route>, ids: set<string>)
    requires Sane(lexical, ids, 1.0) && Sane(semantic, ids, 1.0) && Sane(exact, ids, 1.0) && Sane(overlap, ids, 1.0)
    requires routes == Present(Lexical, lexical) + Present(Semantic, semantic)
                       + Present(ExactAnchor, exact) + Present(CueOverlap, overlap)
    ensures SaneRoutes(routes, ids) && forall r :: r in routes ==> !r.name.Graph? && !r.name.GraphSeed?
  {
  }

  function SemanticHits(cards: seq<Card>, host: Host): seq<(string, real)> {
    if host.semantic.None? then [] else Sort(Usable(host.semantic.value(cards), Ids(cards)), Stronger)
  }

  lemma DirectRoutesAreSane(cards: seq<Card>, host: Host, routes: seq<Route>)
    requires SaneHost(host, cards) && routes == DirectRoutes(cards, host)
    ensures SaneRoutes(routes, Ids(cards)) && forall r :: r in routes ==> !r.name.Graph? && !r.name.GraphSeed?
  {
    var ids := Ids(cards);
    SharesAreSane(host.lexical(cards), ids);
    if host.semantic.Some? { SortedIsSane(Usable(host.semantic.value(cards), ids), ids); }
    HitsAreSane(cards, host.exact);
    HitsAreSane(cards, host.overlap);
    SortedIsSane(Hits(cards, host.exact), ids);
    SortedIsSane(Hits(cards, host.overlap), ids);
    PresentAreSane(Shares(host.lexical(cards)), SemanticHits(cards, host), Sort(Hits(cards, host.exact), Stronger),
                   Sort(Hits(cards, host.overlap), Stronger), routes, ids);
  }

  /** The first three cards of each route. */
  method DirectSeeds(routes: seq<Route>) returns (seeds: seq<string>)
    ensures forall x :: x in seeds <==> exists r, i :: r in routes && 0 <= i < 3 && i < |r.values| && r.values[i].0 == x
    ensures Distinct(seeds)
  {
    seeds := [];
    for i := 0 to |routes|
      invariant forall x :: x in seeds <==>
                  exists r, k :: r in routes[..i] && 0 <= k < 3 && k < |r.values| && r.values[k].0 == x
      invariant Distinct(seeds)
    {
      seeds := SeedsOf(routes[i].values, seeds);
      assert routes[..i + 1] == routes[..i] + [routes[i]];
    }
    assert routes[..|routes|] == routes;
  }

  method SeedsOf(values: seq<(string, real)>, before: seq<string>) returns (seeds: seq<string>)
    requires Distinct(before)
    ensures forall x :: x in seeds <==> x in before || exists k :: 0 <= k < 3 && k < |values| && values[k].0 == x
    ensures Distinct(seeds)
  {
    seeds := before;
    var top := if |values| < 3 then values else values[..3];
    for j := 0 to |top|
      invariant forall x :: x in seeds <==> x in before || exists k :: 0 <= k < j && values[k].0 == x
      invariant Distinct(seeds)
    {
      if top[j].0 !in seeds { seeds := seeds + [top[j].0]; }
    }
  }

  // ---- the score ----

  /** A later entry for the same card overwrites an earlier one. */
  function Strength(values: seq<(string, real)>, id: string): real {
    if values == [] then 0.0 else
      var last := values[|values| - 1];
      if last.0 == id then last.1 else Strength(values[..|values| - 1], id)
  }

  function MaxReal(a: real, b: real): real { if a < b then b else a }

  function Direct(routes: seq<Route>, id: string): real {
    if routes == [] then 0.0 else
      var rest := Direct(routes[1..], id);
      if routes[0].name.Graph? then rest else MaxReal(Strength(routes[0].values, id), rest)
  }

  function ByGraph(routes: seq<Route>, id: string): real {
    if routes == [] then 0.0 else
      var rest := ByGraph(routes[1..], id);
      if routes[0].name.Graph? then MaxReal(Strength(routes[0].values, id), rest) else rest
  }

  /** The reciprocal ranks of a card in one route, from position i on. */
  function Reciprocal(values: seq<(string, real)>, maxCandidates: nat, id: string, i: nat): (r: real)
    ensures r >= 0.0
    ensures (exists k :: i <= k < |values| && k < maxCandidates && values[k].0 == id) ==> r > 0.0
    decreases |values| - i
  {
    if i >= |values| || i >= maxCandidates then 0.0 else
      (if values[i].0 == id then 1.0 / (61 + i) as real else 0.0) + Reciprocal(values, maxCandidates, id, i + 1)
  }

  function Fused(routes: seq<Route>, maxCandidates: nat, id: string): (r: real)
    ensures r >= 0.0
  {
    if routes == [] then 0.0
    else Reciprocal(routes[0].values, maxCandidates, id, 0) + Fused(routes[1..], maxCandidates, id)
  }

  predicate InRanking(values: seq<(string, real)>, maxCandidates: nat, id: string) {
    exists k :: 0 <= k < |values| && k < maxCandidates && values[k].0 == id
  }

  predicate IsRanked(routes: seq<Route>, maxCandidates: nat, id: string) {
    exists r :: r in routes && InRanking(r.values, maxCandidates, id)
  }

  function MaxFused(routes: seq<Route>, maxCandidates: nat, ids: seq<string>): real {
    if ids == [] then 0.0 else MaxReal(Fused(routes, maxCandidates, ids[0]), MaxFused(routes, maxCandidates, ids[1..]))
  }

  function RawScore(direct: real, byGraph: real, fused: real, maxFused: real, c: Card): real
    requires maxFused != 0.0
  {
    0.55 * direct + 0.25 * byGraph + 0.1 * (fused / maxFused) + (0.07 * c.confidence + 0.03 * c.importance)
  }

  /** The clamp at 1 never binds. */
  lemma ScoreBound(direct: real, byGraph: real, fused: real, maxFused: real, c: Card)
    requires 0.0 <= direct <= 1.0 && 0.0 <= byGraph <= 0.65 && 0.0 < fused <= maxFused
    requires 0.0 <= c.confidence <= 1.0 && 0.0 <= c.importance <= 1.0
    ensures 0.0 < RawScore(direct, byGraph, fused, maxFused, c) <= 0.9125
  {
    assert 0.0 < fused / maxFused <= 1.0;
  }

  lemma {:induction false} StrengthBound(values: seq<(string, real)>, ids: set<string>, id: string, bound: real)
    requires Sane(values, ids, bound) && bound >= 0.0
    ensures 0.0 <= Strength(values, id) <= bound
  {
    if values != [] {
      assert values[|values| - 1] in values;
      StrengthBound(values[..|values| - 1], ids, id, bound);
    }
  }

  lemma {:induction false} StrengthsBound(routes: seq<Route>, ids: set<string>, id: string)
    requires SaneRoutes(routes, ids)
    ensures 0.0 <= Direct(routes, id) <= 1.0 && 0.0 <= ByGraph(routes, id) <= 0.65
  {
    if routes != [] {
      assert routes[0] in routes;
      StrengthBound(routes[0].values, ids, id, if routes[0].name.Graph? then 0.65 else 1.0);
      StrengthsBound(routes[1..], ids, id);
    }
  }

  lemma {:induction false} RankedIsFused(routes: seq<Route>, maxCandidates: nat, id: string)
    requires IsRanked(routes, maxCandidates, id)
    ensures Fused(routes, maxCandidates, id) > 0.0
  {
    if !InRanking(routes[0].values, maxCandidates, id) {
      var r :| r in routes && InRanking(r.values, maxCandidates, id);
      assert r in routes[1..];
      RankedIsFused(routes[1..], maxCandidates, id);
    }
  }

  lemma {:induction false} MaxFusedIsMax(routes: seq<Route>, maxCandidates: nat, ids: seq<string>, id: string)
    requires id in ids
    ensures Fused(routes, maxCandidates, id) <= MaxFused(routes, maxCandidates, ids)
  {
    if id != ids[0] { MaxFusedIsMax(routes, maxCandidates, ids[1..], id); }
  }

  // ---- ranking ----

  datatype Ranked = Ranked(card: Card, score: real, routes: set<RouteName>)

  predicate Better(a: Ranked, b: Ranked) { a.score > b.score || (a.score == b.score && StrLeq(a.card.id, b.card.id)) }

  lemma BetterIsPreorder()
    ensures TotalPreorder(Better)
  {
    StrLeqIsTotalOrder();
  }

  predicate On(routes: seq<Route>, name: RouteName, id: string) {
    exists r, v :: r in routes && r.name == name && v in r.values && v.0 == id
  }

  function RoutesOf(routes: seq<Route>, id: string): set<RouteName> {
    set r | r in routes && (exists v :: v in r.values && v.0 == id) :: r.name
  }

  /** The ids that some route has among its first candidates. */
  function RankedIds(routes: seq<Route>, maxCandidates: nat): seq<string> {
    StrLeqIsTotalOrder();
    SortSet(set r, i | r in routes && 0 <= i < |r.values| && i < maxCandidates :: r.values[i].0, StrLeq)
  }

  function Rate(routes: seq<Route>, maxCandidates: nat, maxFused: real, c: Card): Ranked
    requires maxFused > 0.0
  {
    var raw := RawScore(Direct(routes, c.id), ByGraph(routes, c.id), Fused(routes, maxCandidates, c.id), maxFused, c);
    Ranked(c, if raw < 1.0 then raw else 1.0, RoutesOf(routes, c.id))
  }

  /** The dictionary of the candidates: the last one of an id. */
  function ById(cards: seq<Card>): (r: map<string, Card>)
    ensures r.Keys == Ids(cards) && forall id :: id in r ==> r[id] in cards && r[id].id == id
  {
    if cards == [] then map[] else
      var last := cards[|cards| - 1];
      assert cards == cards[..|cards| - 1] + [last];
      ById(cards[..|cards| - 1])[last.id := last]
  }

  /** The loop over the fused scores. */
  method RateAll(ids: seq<string>, byId: map<string, Card>, rate: Card -> Ranked) returns (rated: seq<Ranked>)
    requires forall id :: id in ids ==> id in byId
    ensures |rated| == |ids| && forall k :: 0 <= k < |ids| ==> rated[k] == rate(byId[ids[k]])
  {
    rated := [];
    for i := 0 to |ids|
      invariant |rated| == i && forall k :: 0 <= k < i ==> rated[k] == rate(byId[ids[k]])
    {
      rated := rated + [rate(byId[ids[i]])];
    }
  }

  predicate Listed(ranked: seq<Ranked>, id: string) { exists x :: x in ranked && x.card.id == id }

  /** The best fused score of all that are ranked; every card is rated against it. */
  function BestFused(routes: seq<Route>, maxCandidates: nat): real {
    MaxFused(routes, maxCandidates, RankedIds(routes, maxCandidates))
  }

  /** Exactly the cards that some route ranks, each once, rated against the best fused score. */
  ghost predicate AllRated(routes: seq<Route>, cards: seq<Card>, maxCandidates: nat, ranked: seq<Ranked>) {
    && (forall x :: x in ranked ==> IsRated(routes, cards, maxCandidates, x))
    && (forall i, j :: 0 <= i < j < |ranked| ==> ranked[i].card.id != ranked[j].card.id)
    && (forall id :: IsRanked(routes, maxCandidates, id) ==> Listed(ranked, id))
  }

  ghost predicate IsRated(routes: seq<Route>, cards: seq<Card>, maxCandidates: nat, x: Ranked) {
    var id, best := x.card.id, BestFused(routes, maxCandidates);
    && IsRanked(routes, maxCandidates, id) && id in ById(cards) && x.card == ById(cards)[id]
    && best >= Fused(routes, maxCandidates, id) > 0.0 && x == Rate(routes, maxCandidates, best, x.card)
  }

  lemma SortedRating(routes: seq<Route>, cards: seq<Card>, maxCandidates: nat, ids: seq<string>, rated: seq<Ranked>,
                     ranked: seq<Ranked>)
    requires ids == RankedIds(routes, maxCandidates) && ranked == Sort(rated, Better) && |rated| == |ids|
    requires forall k :: 0 <= k < |ids| ==>
               IsRated(routes, cards, maxCandidates, rated[k]) && rated[k].card.id == ids[k]
    ensures Sorted(ranked, Better) && AllRated(routes, cards, maxCandidates, ranked)
  {
    BetterIsPreorder();
    SortCorrect(rated, Better);
    SortElements(rated, Better);
    RankedIdsDiffer(routes, maxCandidates);
    CardIdsDiffer(rated, ranked);
    forall id | IsRanked(routes, maxCandidates, id) ensures Listed(ranked, id) {
      RankedIsListed(routes, maxCandidates, id);
      var k :| 0 <= k < |ids| && ids[k] == id;
      assert rated[k] in ranked;
    }
  }

  lemma RankedIdsDiffer(routes: seq<Route>, maxCandidates: nat)
    ensures Distinct(RankedIds(routes, maxCandidates))
  {
    StrLeqIsTotalOrder();
  }

  lemma CardIdsDiffer(rated: seq<Ranked>, ranked: seq<Ranked>)
    requires forall i, j :: 0 <= i < j < |rated| ==> rated[i].card.id != rated[j].card.id
    requires (forall x :: x in ranked <==> x in rated) && (Distinct(rated) ==> Distinct(ranked))
    ensures forall i, j :: 0 <= i < j < |ranked| ==> ranked[i].card.id != ranked[j].card.id
  {
    forall i, j | 0 <= i < j < |ranked| ensures ranked[i].card.id != ranked[j].card.id {
      assert ranked[i] in rated && ranked[j] in rated && ranked[i] != ranked[j];
    }
  }

  function Rater(routes: seq<Route>, maxCandidates: nat, maxFused: real): Card -> Ranked {
    c => if maxFused > 0.0 then Rate(routes, maxCandidates, maxFused, c) else Ranked(c, 0.0, {})
  }

  lemma RatedAreSound(routes: seq<Route>, cards: seq<Card>, maxCandidates: nat, ids: seq<string>, rated: seq<Ranked>)
    requires SaneRoutes(routes, Ids(cards)) && ids == RankedIds(routes, maxCandidates) && |rated| == |ids|
    requires forall id :: id in ids ==> id in ById(cards)
    requires forall k :: 0 <= k < |ids| ==>
               rated[k] == Rater(routes, maxCandidates, MaxFused(routes, maxCandidates, ids))(ById(cards)[ids[k]])
    ensures forall k :: 0 <= k < |ids| ==> IsRated(routes, cards, maxCandidates, rated[k]) && rated[k].card.id == ids[k]
  {
    forall k | 0 <= k < |ids| ensures IsRated(routes, cards, maxCandidates, rated[k]) && rated[k].card.id == ids[k] {
      RatedIsSound(routes, cards, maxCandidates, ids, ids[k]);
    }
  }

  lemma RankedIsListed(routes: seq<Route>, maxCandidates: nat, id: string)
    ensures id in RankedIds(routes, maxCandidates) <==> IsRanked(routes, maxCandidates, id)
  {
  }

  lemma RatedIsSound(routes: seq<Route>, cards: seq<Card>, maxCandidates: nat, ids: seq<string>, id: string)
    requires SaneRoutes(routes, Ids(cards)) && ids == RankedIds(routes, maxCandidates) && id in ids
    ensures id in ById(cards) && MaxFused(routes, maxCandidates, ids) > 0.0
    ensures IsRated(routes, cards, maxCandidates,
                    Rate(routes, maxCandidates, MaxFused(routes, maxCandidates, ids), ById(cards)[id]))
  {
    RankedIsListed(routes, maxCandidates, id);
    RankedIsFused(routes, maxCandidates, id);
    MaxFusedIsMax(routes, maxCandidates, ids, id);
    var r, k :| r in routes && 0 <= k < |r.values| && k < maxCandidates && r.values[k].0 == id;
    assert r.values[k] in r.values;
  }

  /** Scores of well-formed cards are never clamped. */
  lemma RatedBound(routes: seq<Route>, cards: seq<Card>, maxCandidates: nat, x: Ranked)
    requires SaneRoutes(routes, Ids(cards)) && IsRated(routes, cards, maxCandidates, x)
    requires 0.0 <= x.card.confidence <= 1.0 && 0.0 <= x.card.importance <= 1.0
    ensures 0.0 < x.score <= 0.9125
  {
    var id := x.card.id;
    var best := BestFused(routes, maxCandidates);
    StrengthsBound(routes, Ids(cards), id);
    ScoreBound(Direct(routes, id), ByGraph(routes, id), Fused(routes, maxCandidates, id), best, x.card);
  }

  // ---- the graph routes ----

  function Pairs(strength: map<string, real>, ids: seq<string>): (r: seq<(string, real)>)
    requires forall id :: id in ids ==> id in strength
    ensures forall v :: v in r <==> v.0 in ids && v.1 == strength[v.0]
  {
    if ids == [] then [] else [(ids[0], strength[ids[0]])] + Pairs(strength, ids[1..])
  }

  function Halves(ids: seq<string>): (r: seq<(string, real)>)
    ensures |r| == |ids| && forall i :: 0 <= i < |r| ==> r[i] == (ids[i], 0.5)
  {
    seq(|ids|, i requires 0 <= i < |ids| => (ids[i], 0.5))
  }

  function GraphHits(strength: map<string, real>): seq<(string, real)> {
    StrLeqIsTotalOrder();
    Sort(Pairs(strength, SortSet(strength.Keys, StrLeq)), Stronger)
  }

  lemma GraphHitsExact(strength: map<string, real>)
    ensures forall v :: v in GraphHits(strength) <==> v.0 in strength && v.1 == strength[v.0]
  {
    StrLeqIsTotalOrder();
    StrongerIsPreorder();
    SortElements(Pairs(strength, SortSet(strength.Keys, StrLeq)), Stronger);
  }

  function GraphRoutes(strength: map<string, real>, graphSeeds: seq<string>): seq<Route> {
    if strength == map[] then [] else [Route(Graph, GraphHits(strength)), Route(GraphSeed, Halves(graphSeeds))]
  }

  /** All routes and where those of the graph come from. */
  ghost predicate Routed(routes: seq<Route>, cards: seq<Card>, p: Policy, host: Host) {
    exists seeds, strength, graphSeeds ::
      RoutesFrom(routes, cards, host, seeds, strength, graphSeeds)
      && ByExpansion(cards, p, host, seeds, strength, graphSeeds)
  }

  ghost predicate ByExpansion(cards: seq<Card>, p: Policy, host: Host, seeds: set<string>, strength: map<string, real>,
                              graphSeeds: seq<string>) {
    && (forall id :: id in strength <==> id !in seeds && Within(host.relations, Ids(cards), seeds, id, p.graphDepth))
    && (forall id :: id in strength ==> IsShare(host.relations, Ids(cards), seeds, p.graphDepth, id, strength[id]))
    && (strength != map[] ==> graphSeeds != []) && (forall id :: id in graphSeeds ==> id in Ids(cards))
    && Led(host.relations, graphSeeds, strength.Keys)
  }

  ghost predicate RoutesFrom(routes: seq<Route>, cards: seq<Card>, host: Host, seeds: set<string>,
                             strength: map<string, real>, graphSeeds: seq<string>) {
    routes == DirectRoutes(cards, host) + GraphRoutes(strength, graphSeeds) && seeds == Seeds(DirectRoutes(cards, host))
  }

  function Seeds(routes: seq<Route>): set<string> {
    set r, i | r in routes && 0 <= i < 3 && i < |r.values| :: r.values[i].0
  }

  method BuildRoutes(cards: seq<Card>, p: Policy, host: Host) returns (routes: seq<Route>)
    requires SaneHost(host, cards)
    ensures SaneRoutes(routes, Ids(cards)) && Routed(routes, cards, p, host)
  {
    var direct := DirectRoutes(cards, host);
    DirectRoutesAreSane(cards, host, direct);
    var seeds := DirectSeeds(direct);
    ghost var start := set s | s in seeds;
    assert start == Seeds(direct);
    SeedsAreCandidates(direct, Ids(cards));
    var strength, graphSeeds := Expand(host.relations, Ids(cards), seeds, p.graphDepth);
    routes := direct + GraphRoutes(strength, graphSeeds);
    SharesAreBounded(host.relations, Ids(cards), start, p.graphDepth, strength);
    GraphRoutesAreSane(strength, graphSeeds, Ids(cards));
    AreRouted(direct, cards, p, host, start, strength, graphSeeds);
  }

  lemma AreRouted(direct: seq<Route>, cards: seq<Card>, p: Policy, host: Host, seeds: set<string>,
                  strength: map<string, real>, graphSeeds: seq<string>)
    requires direct == DirectRoutes(cards, host) && seeds == Seeds(direct)
    requires ByExpansion(cards, p, host, seeds, strength, graphSeeds)
    ensures Routed(direct + GraphRoutes(strength, graphSeeds), cards, p, host)
  {
    assert RoutesFrom(direct + GraphRoutes(strength, graphSeeds), cards, host, seeds, strength, graphSeeds);
  }

  lemma SeedsAreCandidates(routes: seq<Route>, ids: set<string>)
    requires SaneRoutes(routes, ids)
    ensures Seeds(routes) <= ids
  {
    forall r, i | r in routes && 0 <= i < 3 && i < |r.values| ensures r.values[i].0 in ids {
      assert r.values[i] in r.values;
    }
  }

  lemma GraphRoutesAreSane(strength: map<string, real>, graphSeeds: seq<string>, ids: set<string>)
    requires forall id :: id in strength ==> id in ids && 0.0 <= strength[id] <= 0.65
    requires forall id :: id in graphSeeds ==> id in ids
    ensures SaneRoutes(GraphRoutes(strength, graphSeeds), ids)
  {
    GraphHitsExact(strength);
    if strength != map[] { TwoRoutesAreSane(GraphHits(strength), Halves(graphSeeds), strength, ids); }
  }

  lemma TwoRoutesAreSane(hits: seq<(string, real)>, halves: seq<(string, real)>, strength: map<string, real>,
                         ids: set<string>)
    requires forall v :: v in hits ==> v.0 in strength && v.1 == strength[v.0]
    requires forall id :: id in strength ==> id in ids && 0.0 <= strength[id] <= 0.65
    requires Sane(halves, ids, 1.0)
    ensures SaneRoutes([Route(Graph, hits), Route(GraphSeed, halves)], ids)
  {
    assert Sane(hits, ids, 0.65);
  }

  lemma SharesAreBounded(relations: Relations, ids: set<string>, seeds: set<string>, depth: nat,
                         strength: map<string, real>)
    requires seeds <= ids && forall id :: id in strength ==> IsShare(relations, ids, seeds, depth, id, strength[id])
    ensures forall id :: id in strength ==> id in ids && 0.0 <= strength[id] <= 0.65
  {
    BallIsEligible(relations, ids, seeds, depth);
    forall id | id in strength ensures id in ids && 0.0 <= strength[id] <= 0.65 {
      ShareIsSane(relations, ids, seeds, depth, id, strength[id]);
    }
  }

  lemma ShareIsSane(relations: Relations, ids: set<string>, seeds: set<string>, depth: nat, id: string, strength: real)
    requires IsShare(relations, ids, seeds, depth, id, strength) && Ball(relations, ids, seeds, depth) <= ids
    ensures id in ids && 0.0 <= strength <= 0.65
  {
    ShareBound(Distance(relations, ids, seeds, id, depth));
  }

  lemma ShareBound(d: nat)
    requires d > 0
    ensures 0.0 < 0.65 / d as real <= 0.65
  {
  }

  // ---- the decision ----

  datatype Reason = InactiveOrInvalid | NoRelevantCandidate | BelowThreshold | Ambiguous
  datatype Decision = NoMemory(reason: Reason) | UseMemory(items: seq<Ranked>)

  predicate HasChain(ranked: seq<Ranked>, asked: bool) { asked && exists x :: x in ranked && Graph in x.routes }

  predicate Picked(x: Ranked, chain: bool, floor: real) {
    if chain then GraphSeed in x.routes || (Graph in x.routes && x.score >= 0.25) else x.score >= floor
  }

  function Pick(ranked: seq<Ranked>, chain: bool, floor: real): (r: seq<Ranked>)
    ensures forall x :: x in r <==> x in ranked && Picked(x, chain, floor)
  {
    if ranked == [] then []
    else (if Picked(ranked[0], chain, floor) then [ranked[0]] else []) + Pick(ranked[1..], chain, floor)
  }

  function Margin(ranked: seq<Ranked>): real
    requires ranked != []
  {
    ranked[0].score - (if |ranked| > 1 then ranked[1].score else 0.0)
  }

  /** `excluded` is the best similarity among the cards that are in scope but not in force. */
  function Decide(p: Policy, limit: nat, ranked: seq<Ranked>, excluded: Option<real>, active: real,
                  asked: bool): Decision {
    if excluded.Some? && excluded.value >= 0.35 && excluded.value > active + p.minMargin
    then NoMemory(InactiveOrInvalid)
    else if ranked == [] then NoMemory(NoRelevantCandidate)
    else
      var top := ranked[0];
      var chain := HasChain(ranked, asked);
      if top.score < p.minScore then NoMemory(BelowThreshold)
      else if |ranked| > 1 && Margin(ranked) < p.minMargin && ExactAnchor !in top.routes && !chain
           then NoMemory(Ambiguous)
      else
        var picked := Pick(ranked, chain, MaxReal(0.25, top.score * 0.55));
        UseMemory(if |picked| <= limit then picked else picked[..limit])
  }

  /** Where a card was reached by the graph, one that led the way is ranked as well. */
  predicate ChainSeeded(ranked: seq<Ranked>) {
    (exists x :: x in ranked && Graph in x.routes) ==> exists x :: x in ranked && GraphSeed in x.routes
  }

  /** With a threshold of at least 0.25 a decision to use memory always has an item.  The best card is the
      first one, unless a chain is asked for that neither starts from it nor reaches it at 0.25: exactly
      then it is passed over. */
  lemma UseHasItems(p: Policy, limit: nat, ranked: seq<Ranked>, excluded: Option<real>, active: real, asked: bool)
    requires limit >= 1 && p.minScore >= 0.25
    requires ChainSeeded(ranked)
    ensures var r := Decide(p, limit, ranked, excluded, active, asked);
            r.UseMemory? ==>
              && 1 <= |r.items| <= limit && (forall x :: x in r.items ==> x in ranked)
              && ranked[0].score >= p.minScore
              && (|ranked| == 1 || Margin(ranked) >= p.minMargin || ExactAnchor in ranked[0].routes
                  || HasChain(ranked, asked))
              && (ranked[0] in r.items ==> r.items[0] == ranked[0])
              && (ranked[0] !in r.items <==> HasChain(ranked, asked) && GraphSeed !in ranked[0].routes &&
                                             (Graph !in ranked[0].routes || ranked[0].score < 0.25))
  {
    var r := Decide(p, limit, ranked, excluded, active, asked);
    if r.UseMemory? {
      var chain := HasChain(ranked, asked);
      var picked := Pick(ranked, chain, MaxReal(0.25, ranked[0].score * 0.55));
      if chain {
        var x :| x in ranked && GraphSeed in x.routes;
        assert x in picked;
      }
      if Picked(ranked[0], chain, MaxReal(0.25, ranked[0].score * 0.55)) { assert picked[0] == ranked[0]; }
      forall x | x in r.items ensures x in ranked { assert x in picked; }
    }
  }

  lemma PicksChain(best: Ranked, start: Ranked, reached: Ranked, floor: real)
    requires !Picked(best, true, floor) && Picked(start, true, floor) && Picked(reached, true, floor)
    ensures Pick([best, start, reached], true, floor) == [start, reached]
  {
    assert [best, start, reached][1..] == [start, reached];
    assert [start, reached][1..] == [reached] && [reached][1..] == [];
    assert Pick([reached], true, floor) == [reached];
    assert Pick([start, reached], true, floor) == [start, reached];
  }

  lemma ChainIsSeeded(ranked: seq<Ranked>, reached: Ranked, start: Ranked)
    requires reached in ranked && Graph in reached.routes && start in ranked && GraphSeed in start.routes
    ensures ChainSeeded(ranked) && HasChain(ranked, true)
  {
  }

  /** Of three ranked cards the best, which has no links, is passed over for a chain between the others. */
  lemma BestIsPassedOver(best: Ranked, start: Ranked, reached: Ranked, p: Policy, active: real)
    requires 0.25 <= p.minScore <= best.score && reached.score >= 0.25
    requires Graph !in best.routes && GraphSeed !in best.routes && GraphSeed in start.routes && Graph in reached.routes
    ensures Decide(p, 2, [best, start, reached], None, active, true) == UseMemory([start, reached])
  {
    var ranked := [best, start, reached];
    ChainIsSeeded(ranked, reached, start);
    PicksChain(best, start, reached, MaxReal(0.25, best.score * 0.55));
  }

  function Best(cards: seq<Card>, similarity: Card -> real): Option<real> {
    if cards == [] then None else
      var rest := Best(cards[1..], similarity);
      Some(if rest.Some? then MaxReal(similarity(cards[0]), rest.value) else similarity(cards[0]))
  }

  datatype Refusal = BlankQuery | LimitOutOfRange
  datatype Result = Ok(decision: Decision) | Err(refusal: Refusal)

  function Outside(cards: seq<Card>, ids: set<string>): seq<Card> {
    if cards == [] then [] else (if cards[0].id in ids then [] else [cards[0]]) + Outside(cards[1..], ids)
  }

  // ---- exactly when which decision is taken ----

  /** In scope, but not in force, nor is any card of its identifier. */
  predicate Excluded(c: Card, q: Query, p: Policy, host: Host, all: seq<Card>) {
    c in all && Admitted(c, q, p, host.origins)
    && forall e :: e in all && Eligible(e, q, p, host.origins) ==> e.id != c.id
  }

  /** Such a card is like the question, and more so by the margin than every card in force; without any in force it
      is compared with nothing at all. */
  ghost predicate Outweighed(q: Query, p: Policy, host: Host, all: seq<Card>) {
    exists c :: Excluded(c, q, p, host, all) && OutweighsAll(c, q, p, host, all)
  }

  ghost predicate OutweighsAll(c: Card, q: Query, p: Policy, host: Host, all: seq<Card>) {
    && host.similarity(c) >= 0.35
    && (forall e :: e in all && Eligible(e, q, p, host.origins) ==>
          host.similarity(c) > host.similarity(e) + p.minMargin)
    && ((forall e :: e in all ==> !Eligible(e, q, p, host.origins)) ==> host.similarity(c) > p.minMargin)
  }

  predicate ChainFound(ranked: seq<Ranked>, asked: bool) { asked && exists x :: x in ranked && Graph in x.routes }

  predicate Unclear(ranked: seq<Ranked>, p: Policy, asked: bool) {
    && |ranked| >= 2 && ranked[0].score - ranked[1].score < p.minMargin
    && ExactAnchor !in ranked[0].routes && !ChainFound(ranked, asked)
  }

  /** With a chain: where it starts, and what it reaches well enough; otherwise whatever scores at least a quarter and
      more than half as much as the best. */
  ghost function Selected(ranked: seq<Ranked>, asked: bool): Ranked -> bool
    requires ranked != []
  {
    (x: Ranked) =>
      if ChainFound(ranked, asked) then GraphSeed in x.routes || (Graph in x.routes && x.score >= 0.25)
      else x.score >= 0.25 && x.score >= 0.55 * ranked[0].score
  }

  ghost function FirstOnes(xs: seq<Ranked>, limit: int): seq<Ranked> {
    if 0 <= limit < |xs| then xs[..limit] else xs
  }

  /** Each of the five decisions has its own exact condition. */
  ghost predicate DecidedOn(p: Policy, limit: int, ranked: seq<Ranked>, outweighed: bool, asked: bool, d: Decision) {
    && (d == NoMemory(InactiveOrInvalid) <==> outweighed)
    && (d == NoMemory(NoRelevantCandidate) <==> !outweighed && ranked == [])
    && (d == NoMemory(BelowThreshold) <==> !outweighed && ranked != [] && ranked[0].score < p.minScore)
    && (d == NoMemory(Ambiguous) <==>
          !outweighed && ranked != [] && ranked[0].score >= p.minScore && Unclear(ranked, p, asked))
    && (d.UseMemory? <==>
          !outweighed && ranked != [] && ranked[0].score >= p.minScore && !Unclear(ranked, p, asked))
    && (d.UseMemory? ==> d.items == FirstOnes(Filter(ranked, Selected(ranked, asked)), limit))
  }

  lemma {:induction false} PickIsFilter(ranked: seq<Ranked>, chain: bool, floor: real, keep: Ranked -> bool)
    requires forall x :: keep(x) <==> Picked(x, chain, floor)
    ensures Pick(ranked, chain, floor) == Filter(ranked, keep)
  {
    if ranked != [] { PickIsFilter(ranked[1..], chain, floor, keep); }
  }

  lemma DecidesExactly(p: Policy, limit: nat, ranked: seq<Ranked>, excluded: Option<real>, active: real, asked: bool)
    ensures var outweighed := excluded.Some? && excluded.value >= 0.35 && excluded.value > active + p.minMargin;
            DecidedOn(p, limit, ranked, outweighed, asked, Decide(p, limit, ranked, excluded, active, asked))
  {
    if ranked != [] {
      var floor := MaxReal(0.25, ranked[0].score * 0.55);
      PickIsFilter(ranked, HasChain(ranked, asked), floor, Selected(ranked, asked));
    }
  }

  /** The best similarity: some card attains it and none exceeds it. */
  lemma {:induction false} BestExactly(cards: seq<Card>, similarity: Card -> real)
    ensures Best(cards, similarity).None? <==> cards == []
    ensures cards != [] ==>
              (exists c :: c in cards && similarity(c) == Best(cards, similarity).value)
              && forall c :: c in cards ==> similarity(c) <= Best(cards, similarity).value
  {
    if cards != [] {
      BestExactly(cards[1..], similarity);
      assert cards[0] in cards;
    }
  }

  lemma {:induction false} OutsideExactly(cards: seq<Card>, ids: set<string>)
    ensures forall c :: c in Outside(cards, ids) <==> c in cards && c.id !in ids
  {
    if cards != [] { OutsideExactly(cards[1..], ids); }
  }

  lemma ExcludedAreOutside(q: Query, p: Policy, host: Host, all: seq<Card>, scoped: seq<Card>, eligible: seq<Card>)
    requires forall c :: c in scoped <==> c in all && Admitted(c, q, p, host.origins)
    requires forall c :: c in eligible <==> c in all && Eligible(c, q, p, host.origins)
    ensures forall c :: c in Outside(scoped, Ids(eligible)) <==> Excluded(c, q, p, host, all)
  {
    OutsideExactly(scoped, Ids(eligible));
    forall c: Card
      ensures c.id in Ids(eligible) <==> exists e :: e in all && Eligible(e, q, p, host.origins) && e.id == c.id
    {
      if c.id in Ids(eligible) {
        var e :| e in eligible && e.id == c.id;
      }
    }
  }

  lemma OutweighedExactly(q: Query, p: Policy, host: Host, all: seq<Card>, scoped: seq<Card>, eligible: seq<Card>)
    requires forall c :: c in scoped <==> c in all && Admitted(c, q, p, host.origins)
    requires forall c :: c in eligible <==> c in all && Eligible(c, q, p, host.origins)
    ensures var excluded := Best(Outside(scoped, Ids(eligible)), host.similarity);
            var best := Best(eligible, host.similarity);
            var active := if best.Some? then best.value else 0.0;
            Outweighed(q, p, host, all) <==>
              excluded.Some? && excluded.value >= 0.35 && excluded.value > active + p.minMargin
  {
    var outside := Outside(scoped, Ids(eligible));
    ExcludedAreOutside(q, p, host, all, scoped, eligible);
    BestExactly(outside, host.similarity);
    BestExactly(eligible, host.similarity);
    if outside != [] {
      var c :| c in outside && host.similarity(c) == Best(outside, host.similarity).value;
      assert Excluded(c, q, p, host, all);
      if eligible == [] {
        assert forall e :: e in all ==> !Eligible(e, q, p, host.origins);
      } else {
        assert eligible[0] in eligible;
        var e :| e in eligible && host.similarity(e) == Best(eligible, host.similarity).value;
      }
      assert OutweighsAll(c, q, p, host, all) <==>
        var best := Best(eligible, host.similarity);
        var active := if best.Some? then best.value else 0.0;
        host.similarity(c) >= 0.35 && host.similarity(c) > active + p.minMargin;
    }
  }

  lemma SeedRouteIsRanked(routes: seq<Route>, cards: seq<Card>, maxCandidates: nat, ranked: seq<Ranked>,
                          graphSeeds: seq<string>)
    requires AllRated(routes, cards, maxCandidates, ranked) && graphSeeds != [] && maxCandidates > 0
    requires Route(GraphSeed, Halves(graphSeeds)) in routes
    ensures exists x :: x in ranked && GraphSeed in x.routes
  {
    var r, id := Route(GraphSeed, Halves(graphSeeds)), graphSeeds[0];
    assert r.values[0] in r.values && InRanking(r.values, maxCandidates, id);
    assert IsRanked(routes, maxCandidates, id);
    var y :| y in ranked && y.card.id == id;
    assert IsRated(routes, cards, maxCandidates, y) && GraphSeed in RoutesOf(routes, id);
  }

  lemma ChainHasSeed(routes: seq<Route>, cards: seq<Card>, p: Policy, host: Host, ranked: seq<Ranked>)
    requires SaneHost(host, cards) && Routed(routes, cards, p, host) && AllRated(routes, cards, p.maxCandidates, ranked)
    ensures ChainSeeded(ranked)
  {
    if x :| x in ranked && Graph in x.routes {
      var seeds, strength, graphSeeds :| RoutesFrom(routes, cards, host, seeds, strength, graphSeeds)
                                         && ByExpansion(cards, p, host, seeds, strength, graphSeeds);
      var direct := DirectRoutes(cards, host);
      DirectRoutesAreSane(cards, host, direct);
      assert IsRated(routes, cards, p.maxCandidates, x);
      GraphRoutePresent(direct, strength, graphSeeds, routes, x.card.id);
      SeedRouteIsRanked(routes, cards, p.maxCandidates, ranked, graphSeeds);
    }
  }

  lemma GraphRoutePresent(direct: seq<Route>, strength: map<string, real>, graphSeeds: seq<string>, routes: seq<Route>,
                          id: string)
    requires routes == direct + GraphRoutes(strength, graphSeeds) && Graph in RoutesOf(routes, id)
    requires forall r :: r in direct ==> !r.name.Graph?
    ensures strength != map[] && Route(GraphSeed, Halves(graphSeeds)) in routes
  {
    var r :| r in routes && r.name == Graph;
    assert r in GraphRoutes(strength, graphSeeds);
    assert Route(GraphSeed, Halves(graphSeeds)) in GraphRoutes(strength, graphSeeds);
  }

  method RankRoutes(routes: seq<Route>, cards: seq<Card>, maxCandidates: nat) returns (ranked: seq<Ranked>)
    requires SaneRoutes(routes, Ids(cards))
    ensures Sorted(ranked, Better) && AllRated(routes, cards, maxCandidates, ranked)
  {
    var ids := RankedIds(routes, maxCandidates);
    forall id | id in ids ensures id in ById(cards) { RatedIsSound(routes, cards, maxCandidates, ids, id); }
    var rated := RateAll(ids, ById(cards), Rater(routes, maxCandidates, MaxFused(routes, maxCandidates, ids)));
    RatedAreSound(routes, cards, maxCandidates, ids, rated);
    ranked := Sort(rated, Better);
    SortedRating(routes, cards, maxCandidates, ids, rated, ranked);
  }

  /** The ranking of these cards: over all routes to them, rated against one maximum, the best first. */
  ghost predicate RankedFor(cards: seq<Card>, p: Policy, host: Host, ranked: seq<Ranked>) {
    Sorted(ranked, Better)
    && exists routes :: SaneRoutes(routes, Ids(cards)) && Routed(routes, cards, p, host)
                        && AllRated(routes, cards, p.maxCandidates, ranked)
  }

  /** _rank: every card ranked is a candidate, carries exactly the routes that lead to it, and
      was reached by the graph only within the allowed depth. */
  method Rank(cards: seq<Card>, p: Policy, host: Host) returns (ranked: seq<Ranked>)
    requires SaneHost(host, cards)
    ensures RankedFor(cards, p, host, ranked)
    ensures ChainSeeded(ranked) && forall x :: x in ranked ==> x.card in cards
  {
    var routes := BuildRoutes(cards, p, host);
    ranked := RankRoutes(routes, cards, p.maxCandidates);
    ChainHasSeed(routes, cards, p, host, ranked);
    RankedAreCards(routes, cards, p.maxCandidates, ranked);
  }

  lemma RankedAreCards(routes: seq<Route>, cards: seq<Card>, maxCandidates: nat, ranked: seq<Ranked>)
    requires AllRated(routes, cards, maxCandidates, ranked)
    ensures forall x :: x in ranked ==> x.card in cards
  {
    forall x | x in ranked ensures x.card in cards { assert IsRated(routes, cards, maxCandidates, x); }
  }

  /** retrieve: whatever the semantic provider answers, only eligible cards become items.  Of the ranking of these,
      `ranked`, the decision is one of five, each under its own condition. */
  method Retrieve(q: Query, p: Policy, host: Host, all: seq<Card>) returns (r: Result, ghost ranked: seq<Ranked>)
    requires forall cards :: SaneHost(host, cards)
    ensures r.Err? <==> !NotBlank(q.text) || !(1 <= q.limit <= 20)
    ensures r.Err? ==> r.refusal == if NotBlank(q.text) then LimitOutOfRange else BlankQuery
    ensures r.Ok? ==>
              && RankedFor(Filter(all, EligibleBy(q, p, host.origins)), p, host, ranked)
              && DecidedOn(p, q.limit, ranked, Outweighed(q, p, host, all), host.asksForChain, r.decision)
    ensures r.Ok? && r.decision.UseMemory? ==> |r.decision.items| <= q.limit && forall x :: x in r.decision.items ==>
              x.card in all && Eligible(x.card, q, p, host.origins)
    ensures r.Ok? && r.decision.UseMemory? && p.minScore >= 0.25 ==> r.decision.items != []
  {
    ranked := [];
    if !NotBlank(q.text) { return Err(BlankQuery), ranked; }
    if q.limit < 1 || q.limit > 20 { return Err(LimitOutOfRange), ranked; }
    var scoped, eligible := Candidates(all, q, p, host.origins);
    var ranking := Rank(eligible, p, host);
    ranked := ranking;
    var excluded := Best(Outside(scoped, Ids(eligible)), host.similarity);
    var best := Best(eligible, host.similarity);
    var active := if best.Some? then best.value else 0.0;
    var decision := Decide(p, q.limit, ranking, excluded, active, host.asksForChain);
    OutweighedExactly(q, p, host, all, scoped, eligible);
    DecidesExactly(p, q.limit, ranking, excluded, active, host.asksForChain);
    ItemsAreRanked(p, q.limit, ranked, excluded, active, host.asksForChain);
    if p.minScore >= 0.25 { UseHasItems(p, q.limit, ranked, excluded, active, host.asksForChain); }
    return Ok(decision), ranked;
  }

  lemma ItemsAreRanked(p: Policy, limit: nat, ranked: seq<Ranked>, excluded: Option<real>, active: real, asked: bool)
    ensures var r := Decide(p, limit, ranked, excluded, active, asked);
            r.UseMemory? ==> |r.items| <= limit && forall x :: x in r.items ==> x in ranked
  {
  }
}
