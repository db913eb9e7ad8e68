/** The bounded breadth-first expansion of retrieval over the relations between cards. */
module GraphExpansion {

  datatype Edge = Edge(sourceId: string, targetId: string)

  /** The other end of an edge, seen from `id`. */
  function Other(id: string, e: Edge): string { if e.sourceId == id then e.targetId else e.sourceId }

  type Relations = string -> seq<Edge>

  predicate Linked(relations: Relations, a: string, b: string) {
    exists e :: e in relations(a) && Other(a, e) == b
  }

  // ---- distance ----

  /** A walk from a seed that enters only eligible cards. */
  ghost predicate IsWalk(relations: Relations, eligible: set<string>, seeds: set<string>, walk: seq<string>) {
    && walk != [] && walk[0] in seeds
    && forall i :: 0 < i < |walk| ==> walk[i] in eligible && Linked(relations, walk[i - 1], walk[i])
  }

  ghost predicate Within(relations: Relations, eligible: set<string>, seeds: set<string>, id: string, d: nat) {
    exists walk :: IsWalk(relations, eligible, seeds, walk) && walk[|walk| - 1] == id && |walk| <= d + 1
  }

  /** The cards within d hops. */
  ghost function Ball(relations: Relations, eligible: set<string>, seeds: set<string>, d: nat): set<string> {
    if d == 0 then seeds else
      var inner := Ball(relations, eligible, seeds, d - 1);
      inner + set b | b in eligible && Reaches(relations, inner, b)
  }

  ghost predicate Reaches(relations: Relations, from: set<string>, b: string) {
    exists a :: a in from && Linked(relations, a, b)
  }

  lemma {:induction false} BallIsWithin(relations: Relations, eligible: set<string>, seeds: set<string>, id: string,
                                        d: nat)
    ensures id in Ball(relations, eligible, seeds, d) <==> Within(relations, eligible, seeds, id, d)
  {
    if id in Ball(relations, eligible, seeds, d) { WalkInto(relations, eligible, seeds, id, d); }
    if Within(relations, eligible, seeds, id, d) {
      var walk :| IsWalk(relations, eligible, seeds, walk) && walk[|walk| - 1] == id && |walk| <= d + 1;
      WalkStaysInBall(relations, eligible, seeds, walk, |walk| - 1);
      BallGrows(relations, eligible, seeds, |walk| - 1, d);
    }
  }

  lemma {:induction false} WalkInto(relations: Relations, eligible: set<string>, seeds: set<string>, id: string, d: nat)
    requires id in Ball(relations, eligible, seeds, d)
    ensures Within(relations, eligible, seeds, id, d)
    decreases d
  {
    if d == 0 {
      assert IsWalk(relations, eligible, seeds, [id]);
    } else if id in Ball(relations, eligible, seeds, d - 1) {
      WalkInto(relations, eligible, seeds, id, d - 1);
    } else {
      var a :| a in Ball(relations, eligible, seeds, d - 1) && Linked(relations, a, id);
      WalkInto(relations, eligible, seeds, a, d - 1);
      var walk :| IsWalk(relations, eligible, seeds, walk) && walk[|walk| - 1] == a && |walk| <= d;
      WalkOn(relations, eligible, seeds, walk, id);
      assert (walk + [id])[|walk|] == id;
    }
  }

  lemma {:induction false} WalkStaysInBall(relations: Relations, eligible: set<string>, seeds: set<string>,
                                           walk: seq<string>, i: nat)
    requires IsWalk(relations, eligible, seeds, walk) && i < |walk|
    ensures walk[i] in Ball(relations, eligible, seeds, i)
  {
    if i > 0 {
      WalkStaysInBall(relations, eligible, seeds, walk, i - 1);
      assert Reaches(relations, Ball(relations, eligible, seeds, i - 1), walk[i]);
    }
  }

  lemma {:induction false} BallGrows(relations: Relations, eligible: set<string>, seeds: set<string>, d: nat, e: nat)
    requires d <= e
    ensures Ball(relations, eligible, seeds, d) <= Ball(relations, eligible, seeds, e)
  {
    if d < e { BallGrows(relations, eligible, seeds, d, e - 1); }
  }

  ghost predicate Ascending(ball: nat -> set<string>) { forall i: nat, j: nat :: i <= j ==> ball(i) <= ball(j) }

  /** The first of an ascending family of sets to hold an element. */
  ghost function First(ball: nat -> set<string>, id: string, d: nat): (r: nat)
    requires id in ball(d)
    ensures r <= d && id in ball(r) && (r > 0 ==> id !in ball(r - 1))
    decreases d
  {
    if d > 0 && id in ball(d - 1) then First(ball, id, d - 1) else d
  }

  lemma FirstIsStable(ball: nat -> set<string>, id: string, d: nat, bound: nat)
    requires Ascending(ball) && d <= bound && id in ball(d)
    ensures id in ball(bound) && First(ball, id, bound) == First(ball, id, d)
  {
    Later(ball, id, d);
    var m, n := First(ball, id, d), First(ball, id, bound);
    Later(ball, id, m);
    Later(ball, id, n);
  }

  lemma Later(ball: nat -> set<string>, id: string, n: nat)
    requires Ascending(ball) && id in ball(n)
    ensures forall k: nat :: k >= n ==> id in ball(k)
  {
  }

  ghost function Balls(relations: Relations, eligible: set<string>, seeds: set<string>): nat -> set<string> {
    (d: nat) => Ball(relations, eligible, seeds, d)
  }

  lemma BallsAscend(relations: Relations, eligible: set<string>, seeds: set<string>)
    ensures Ascending(Balls(relations, eligible, seeds))
  {
    forall i: nat, j: nat | i <= j ensures Ball(relations, eligible, seeds, i) <= Ball(relations, eligible, seeds, j) {
      BallGrows(relations, eligible, seeds, i, j);
    }
  }

  /** The number of hops to a card within reach. */
  ghost function Distance(relations: Relations, eligible: set<string>, seeds: set<string>, id: string, d: nat): nat
    requires id in Ball(relations, eligible, seeds, d)
  {
    First(Balls(relations, eligible, seeds), id, d)
  }

  lemma WalkOn(relations: Relations, eligible: set<string>, seeds: set<string>, walk: seq<string>, id: string)
    requires IsWalk(relations, eligible, seeds, walk) && id in eligible && Linked(relations, walk[|walk| - 1], id)
    ensures IsWalk(relations, eligible, seeds, walk + [id])
  {
  }

  // ---- the loops ----

  /** The lists and dictionaries the loops fill. */
  datatype Found = Found(visited: set<string>, next: seq<string>, strength: map<string, real>, graphSeeds: seq<string>)

  /** What a scan adds: the new cards, each with the given strength. */
  ghost predicate Adds(before: Found, after: Found, news: set<string>, strength: real) {
    && news !! before.visited && after.visited == before.visited + news
    && (forall x :: x in after.next <==> x in before.next || x in news)
    && after.strength.Keys == before.strength.Keys + news
    && (forall x :: x in before.strength.Keys - news ==> after.strength[x] == before.strength[x])
    && (forall x :: x in news ==> after.strength[x] == strength)
  }

  /** Whoever leads to a new card is noted, and nobody else than the cards scanned. */
  ghost predicate Credits(before: Found, after: Found, news: set<string>, scanned: seq<string>) {
    && (forall x :: x in after.graphSeeds ==> x in before.graphSeeds || x in scanned)
    && (before.graphSeeds != [] || news != {} ==> after.graphSeeds != [])
  }

  function Ends(id: string, edges: seq<Edge>): set<string> { set e | e in edges :: Other(id, e) }

  lemma EndsMore(id: string, edges: seq<Edge>, i: nat)
    requires i < |edges|
    ensures Ends(id, edges[..i + 1]) == Ends(id, edges[..i]) + {Other(id, edges[i])}
  {
    assert edges[..i + 1] == edges[..i] + [edges[i]];
  }

  /** A card reached for the first time. */
  function Visit(f: Found, seed: string, neighbour: string, strength: real): Found {
    var known := if neighbour in f.strength then f.strength[neighbour] else 0.0;
    Found(f.visited + {neighbour}, f.next + [neighbour],
          f.strength[neighbour := if known < strength then strength else known],
          if seed in f.graphSeeds then f.graphSeeds else f.graphSeeds + [seed])
  }

  lemma VisitAdds(before: Found, f: Found, news: set<string>, seed: string, neighbour: string, strength: real)
    requires Adds(before, f, news, strength) && f.strength.Keys <= f.visited && neighbour !in f.visited
    requires strength > 0.0
    ensures var g := Visit(f, seed, neighbour, strength); Adds(before, g, news + {neighbour}, strength)
                                                          && g.strength.Keys <= g.visited
  {
  }

  ghost predicate LedBy(relations: Relations, graphSeeds: seq<string>, b: string) {
    exists a :: a in graphSeeds && Linked(relations, a, b)
  }

  ghost predicate Leads(relations: Relations, reached: set<string>, a: string) {
    exists b :: b in reached && Linked(relations, a, b)
  }

  /** Each card reached has a link from a noted card, and each noted card to one reached. */
  ghost predicate Led(relations: Relations, graphSeeds: seq<string>, reached: set<string>) {
    && (forall b {:trigger LedBy(relations, graphSeeds, b)} :: b in reached ==> LedBy(relations, graphSeeds, b))
    && (forall a {:trigger Leads(relations, reached, a)} :: a in graphSeeds ==> Leads(relations, reached, a))
  }

  lemma OneMoreLed(relations: Relations, graphSeeds: seq<string>, reached: set<string>, seed: string, neighbour: string,
                   noted: seq<string>)
    requires Led(relations, graphSeeds, reached) && Linked(relations, seed, neighbour)
    requires noted == if seed in graphSeeds then graphSeeds else graphSeeds + [seed]
    ensures Led(relations, noted, reached + {neighbour})
  {
    var more := reached + {neighbour};
    assert seed in noted && neighbour in more;
    forall b | b in more ensures LedBy(relations, noted, b) {
      if b != neighbour {
        assert LedBy(relations, graphSeeds, b);
        var a :| a in graphSeeds && Linked(relations, a, b);
        assert a in noted;
      }
    }
    forall a | a in noted ensures Leads(relations, more, a) {
      if a != seed {
        assert Leads(relations, reached, a);
        var b :| b in reached && Linked(relations, a, b);
        assert b in more;
      }
    }
  }

  /** The innermost loop: one card of the frontier. */
  method ScanSeed(relations: Relations, eligible: set<string>, seed: string, strength: real, before: Found)
    returns (f: Found)
    requires before.strength.Keys <= before.visited && strength > 0.0
    requires Led(relations, before.graphSeeds, before.strength.Keys)
    ensures Led(relations, f.graphSeeds, f.strength.Keys)
    ensures var edges := relations(seed);
            && Adds(before, f, Ends(seed, edges) * eligible - before.visited, strength) && f.strength.Keys <= f.visited
            && Credits(before, f, Ends(seed, edges) * eligible - before.visited, [seed])
  {
    f := before;
    var edges := relations(seed);
    ghost var news := {};
    for i := 0 to |edges|
      invariant news == Ends(seed, edges[..i]) * eligible - before.visited
      invariant Adds(before, f, news, strength) && f.strength.Keys <= f.visited
      invariant Credits(before, f, news, [seed]) && Led(relations, f.graphSeeds, f.strength.Keys)
    {
      var neighbour := Other(seed, edges[i]);
      EndsMore(seed, edges, i);
      if neighbour in eligible && neighbour !in f.visited {
        VisitAdds(before, f, news, seed, neighbour, strength);
        assert Linked(relations, seed, neighbour);
        ghost var g := Visit(f, seed, neighbour, strength);
        assert g.strength.Keys == f.strength.Keys + {neighbour};
        OneMoreLed(relations, f.graphSeeds, f.strength.Keys, seed, neighbour, g.graphSeeds);
        f := Visit(f, seed, neighbour, strength);
        news := news + {neighbour};
      }
    }
    assert edges[..|edges|] == edges;
  }

  /** The other ends of all edges of some cards. */
  ghost function AllEnds(relations: Relations, cards: seq<string>): set<string> {
    set a, e | a in cards && e in relations(a) :: Other(a, e)
  }

  lemma AllEndsMore(relations: Relations, cards: seq<string>, i: nat)
    requires i < |cards|
    ensures AllEnds(relations, cards[..i + 1]) == AllEnds(relations, cards[..i]) + Ends(cards[i], relations(cards[i]))
  {
    assert cards[..i + 1] == cards[..i] + [cards[i]];
  }

  /** The loop over the frontier. */
  method ScanLayer(relations: Relations, eligible: set<string>, frontier: seq<string>, strength: real, before: Found)
    returns (f: Found)
    requires before.strength.Keys <= before.visited && strength > 0.0
    requires Led(relations, before.graphSeeds, before.strength.Keys)
    ensures Led(relations, f.graphSeeds, f.strength.Keys)
    ensures Adds(before, f, AllEnds(relations, frontier) * eligible - before.visited, strength)
    ensures f.strength.Keys <= f.visited
    ensures Credits(before, f, AllEnds(relations, frontier) * eligible - before.visited, frontier)
  {
    f := before;
    ghost var news := {};
    for i := 0 to |frontier|
      invariant news == AllEnds(relations, frontier[..i]) * eligible - before.visited
      invariant Adds(before, f, news, strength) && f.strength.Keys <= f.visited
      invariant Credits(before, f, news, frontier[..i]) && Led(relations, f.graphSeeds, f.strength.Keys)
    {
      AllEndsMore(relations, frontier, i);
      var g := ScanSeed(relations, eligible, frontier[i], strength, f);
      ghost var more := Ends(frontier[i], relations(frontier[i])) * eligible - f.visited;
      AddsTwice(before, f, g, news, more, strength);
      f := g;
      news := news + more;
    }
    assert frontier[..|frontier|] == frontier;
  }

  lemma AddsTwice(a: Found, b: Found, c: Found, first: set<string>, second: set<string>, strength: real)
    requires Adds(a, b, first, strength) && Adds(b, c, second, strength)
    requires a.strength.Keys <= a.visited && b.strength.Keys <= b.visited
    ensures Adds(a, c, first + second, strength)
  {
  }

  /** Only the last layer can lead to cards not yet visited. */
  lemma NewLayer(relations: Relations, eligible: set<string>, seeds: set<string>, frontier: seq<string>, d: nat)
    requires forall x :: x in frontier <==>
               x in Ball(relations, eligible, seeds, d) && (d == 0 || x !in Ball(relations, eligible, seeds, d - 1))
    ensures Ball(relations, eligible, seeds, d) + AllEnds(relations, frontier) * eligible ==
              Ball(relations, eligible, seeds, d + 1)
  {
    var ball := Ball(relations, eligible, seeds, d);
    forall b | b in Ball(relations, eligible, seeds, d + 1) && b !in ball
      ensures b in AllEnds(relations, frontier) * eligible
    {
      var a :| a in ball && Linked(relations, a, b);
      if d > 0 && a in Ball(relations, eligible, seeds, d - 1) { OneHopOn(relations, eligible, seeds, d, a, b); }
      var e :| e in relations(a) && Other(a, e) == b;
      assert a in frontier;
    }
    forall b | b in AllEnds(relations, frontier) * eligible ensures b in Ball(relations, eligible, seeds, d + 1) {
      var a, e :| a in frontier && e in relations(a) && Other(a, e) == b;
      assert Linked(relations, a, b) && Reaches(relations, ball, b);
    }
  }

  lemma OneHopOn(relations: Relations, eligible: set<string>, seeds: set<string>, d: nat, a: string, b: string)
    requires d > 0 && a in Ball(relations, eligible, seeds, d - 1) && b in eligible && Linked(relations, a, b)
    ensures b in Ball(relations, eligible, seeds, d)
  {
    assert Reaches(relations, Ball(relations, eligible, seeds, d - 1), b);
  }

  ghost predicate IsLayer(ball: nat -> set<string>, d: nat, frontier: seq<string>) {
    forall x :: x in frontier <==> x in ball(d) && (d == 0 || x !in ball(d - 1))
  }

  ghost predicate Spreads(relations: Relations, eligible: set<string>, ball: nat -> set<string>) {
    forall d: nat, frontier {:trigger IsLayer(ball, d, frontier)} :: IsLayer(ball, d, frontier) ==>
      ball(d + 1) == ball(d) + AllEnds(relations, frontier) * eligible
  }

  /** After d rounds: what has been visited, the last layer, and the strengths so far. */
  ghost predicate Reached(ball: nat -> set<string>, d: nat, f: Found) {
    && f.visited == ball(d) && f.strength.Keys == ball(d) - ball(0) && IsLayer(ball, d, f.next)
    && (forall x :: x in f.graphSeeds ==> x in ball(d)) && (f.strength != map[] ==> f.graphSeeds != [])
    && StrengthsFit(ball, d, f.strength)
  }

  ghost predicate StrengthsFit(ball: nat -> set<string>, d: nat, strength: map<string, real>) {
    forall id :: id in strength ==> StrengthFits(ball, d, strength[id], id)
  }

  ghost predicate StrengthFits(ball: nat -> set<string>, d: nat, strength: real, id: string) {
    id in ball(d) && First(ball, id, d) > 0 && strength == 0.65 / First(ball, id, d) as real
  }

  lemma StrengthsNext(ball: nat -> set<string>, d: nat, before: map<string, real>, news: set<string>,
                      after: map<string, real>)
    requires Ascending(ball) && ball(d + 1) == ball(d) + news && news !! ball(d) && StrengthsFit(ball, d, before)
    requires after.Keys == before.Keys + news && (forall x :: x in news ==> after[x] == 0.65 / (d + 1) as real)
    requires forall x :: x in before.Keys - news ==> after[x] == before[x]
    ensures StrengthsFit(ball, d + 1, after)
  {
    forall id | id in after ensures StrengthFits(ball, d + 1, after[id], id) {
      if id in news {
        assert First(ball, id, d + 1) == d + 1;
      } else {
        assert StrengthFits(ball, d, before[id], id);
        FirstIsStable(ball, id, d, d + 1);
      }
    }
  }

  lemma ReachedNext(ball: nat -> set<string>, d: nat, f: Found, news: set<string>, strength: real, g: Found)
    requires Ascending(ball) && Reached(ball, d, f) && ball(d + 1) == ball(d) + news && news !! ball(d)
    requires strength == 0.65 / (d + 1) as real && Adds(f.(next := []), g, news, strength)
    requires Credits(f, g, news, f.next)
    ensures Reached(ball, d + 1, g)
  {
    StrengthsNext(ball, d, f.strength, news, g.strength);
    LayerNext(ball, d, f, news, strength, g);
  }

  lemma LayerNext(ball: nat -> set<string>, d: nat, f: Found, news: set<string>, strength: real, g: Found)
    requires ball(0) <= ball(d) && ball(d + 1) == ball(d) + news && news !! ball(d)
    requires f.visited == ball(d) && f.strength.Keys == ball(d) - ball(0) && IsLayer(ball, d, f.next)
    requires (forall x :: x in f.graphSeeds ==> x in ball(d)) && (f.strength != map[] ==> f.graphSeeds != [])
    requires Adds(f.(next := []), g, news, strength) && Credits(f, g, news, f.next)
    ensures g.visited == ball(d + 1) && g.strength.Keys == ball(d + 1) - ball(0) && IsLayer(ball, d + 1, g.next)
    ensures (forall x :: x in g.graphSeeds ==> x in ball(d + 1)) && (g.strength != map[] ==> g.graphSeeds != [])
  {
    if news == {} { assert g.strength.Keys == f.strength.Keys; }
  }

  /** The loop over the depths. */
  method Rounds(relations: Relations, eligible: set<string>, seeds: seq<string>, depth: nat,
                ghost ball: nat -> set<string>) returns (f: Found)
    requires ball(0) == (set s | s in seeds) && Ascending(ball) && Spreads(relations, eligible, ball)
    ensures Reached(ball, depth, f) && Led(relations, f.graphSeeds, f.strength.Keys)
  {
    f := Found((set s | s in seeds), seeds, map[], []);
    for d := 0 to depth
      invariant Reached(ball, d, f) && Led(relations, f.graphSeeds, f.strength.Keys)
    {
      assert IsLayer(ball, d, f.next);
      var g := ScanLayer(relations, eligible, f.next, 0.65 / (d + 1) as real, f.(next := []));
      ReachedNext(ball, d, f, AllEnds(relations, f.next) * eligible - f.visited, 0.65 / (d + 1) as real, g);
      f := g;
    }
  }

  lemma LayerSpreads(relations: Relations, eligible: set<string>, seeds: set<string>, ball: nat -> set<string>, d: nat,
                     frontier: seq<string>)
    requires IsLayer(ball, d, frontier) && ball(d) == Ball(relations, eligible, seeds, d)
    requires ball(d + 1) == Ball(relations, eligible, seeds, d + 1)
    requires d > 0 ==> ball(d - 1) == Ball(relations, eligible, seeds, d - 1)
    ensures ball(d + 1) == ball(d) + AllEnds(relations, frontier) * eligible
  {
    NewLayer(relations, eligible, seeds, frontier, d);
  }

  lemma BallsSpread(relations: Relations, eligible: set<string>, seeds: set<string>)
    ensures Spreads(relations, eligible, Balls(relations, eligible, seeds))
  {
    var ball := Balls(relations, eligible, seeds);
    forall d: nat, frontier | IsLayer(ball, d, frontier)
      ensures ball(d + 1) == ball(d) + AllEnds(relations, frontier) * eligible
    {
      LayerSpreads(relations, eligible, seeds, ball, d, frontier);
    }
  }

  /** The graph route: exactly the eligible cards other than the seeds within `depth` hops, each
      with 0.65 divided by its distance; and the cards that led to them. */
  method Expand(relations: Relations, eligible: set<string>, seeds: seq<string>, depth: nat)
    returns (strength: map<string, real>, graphSeeds: seq<string>)
    ensures (forall s :: s in seeds ==> s in eligible) ==> forall s :: s in graphSeeds ==> s in eligible
    ensures strength != map[] ==> graphSeeds != []
    ensures Led(relations, graphSeeds, strength.Keys)
    ensures var start := set s | s in seeds;
            && (forall id :: id in strength <==> id !in seeds && Within(relations, eligible, start, id, depth))
            && (forall id :: id in strength ==> IsShare(relations, eligible, start, depth, id, strength[id]))
  {
    ghost var start := set s | s in seeds;
    BallsAscend(relations, eligible, start);
    BallsSpread(relations, eligible, start);
    var f := Rounds(relations, eligible, seeds, depth, Balls(relations, eligible, start));
    forall id ensures id in f.strength <==> id !in seeds && Within(relations, eligible, start, id, depth) {
      BallIsWithin(relations, eligible, start, id, depth);
    }
    assert StrengthsFit(Balls(relations, eligible, start), depth, f.strength);
    forall id | id in f.strength ensures IsShare(relations, eligible, start, depth, id, f.strength[id]) {
      assert StrengthFits(Balls(relations, eligible, start), depth, f.strength[id], id);
    }
    BallIsEligible(relations, eligible, start, depth);
    return f.strength, f.graphSeeds;
  }

  lemma {:induction false} BallIsEligible(relations: Relations, eligible: set<string>, seeds: set<string>, d: nat)
    ensures Ball(relations, eligible, seeds, d) <= eligible + seeds
  {
    if d > 0 { BallIsEligible(relations, eligible, seeds, d - 1); }
  }

  ghost predicate IsShare(relations: Relations, eligible: set<string>, seeds: set<string>, depth: nat, id: string,
                          strength: real) {
    id in Ball(relations, eligible, seeds, depth) &&
    var d := Distance(relations, eligible, seeds, id, depth); d > 0 && strength == 0.65 / d as real
  }
}
