/** Ranking documents by embedding similarity through a cache of vectors. */
module EmbeddingCache {
  import opened CanonicalJson
  import opened Ordering
  import opened Text

  type Vector = seq<real>

  datatype Document = Document(id: string, text: string)
  datatype Error = InvalidVector | DimensionsChanged
  datatype Result = Ok(ranked: seq<(string, real)>) | Err(error: Error)

  /** The part of the provider that does not change: how texts embed, the digest of a text, the
      similarity of vectors and the limits.  No vector stands for an answer that is refused. */
  datatype Provider = Provider(embed: string -> Option<Vector>, digest: string -> string,
                               cosine: (Vector, Vector) -> real,
                               space: string, minSimilarity: real, maxChars: nat)
  {
    /** Texts with the same digest embed alike, as when the digest is free of collisions. */
    ghost predicate Determined() { forall s, t :: digest(s) == digest(t) ==> embed(s) == embed(t) }
  }

  function Clip(p: Provider, text: string): string { if |text| <= p.maxChars then text else text[..p.maxChars] }

  function Texts(p: Provider, query: string, documents: seq<Document>): (r: seq<string>)
    ensures |r| == |documents| + 1
  {
    [Clip(p, query)] + seq(|documents|, i requires 0 <= i < |documents| => Clip(p, documents[i].text))
  }

  // ---- without a cache ----

  predicate Embeddable(p: Provider, texts: seq<string>) { forall i :: 0 <= i < |texts| ==> p.embed(texts[i]).Some? }

  function EmbedAll(p: Provider, texts: seq<string>): (r: seq<Vector>)
    requires Embeddable(p, texts)
    ensures |r| == |texts| && forall i :: 0 <= i < |r| ==> Some(r[i]) == p.embed(texts[i])
  {
    seq(|texts|, i requires 0 <= i < |texts| => p.embed(texts[i]).value)
  }

  predicate SameDimensions(vectors: seq<Vector>) { forall i :: 0 <= i < |vectors| ==> |vectors[i]| == |vectors[0]| }

  function Similar(p: Provider, query: Vector, documents: seq<Document>, vectors: seq<Vector>,
                   n: nat): seq<(string, real)>
    requires |vectors| == |documents| + 1 && n <= |documents|
  {
    if n == 0 then [] else
      var similarity := p.cosine(query, vectors[n]);
      Similar(p, query, documents, vectors, n - 1) + if similarity >= p.minSimilarity
                                                     then [(documents[n - 1].id, similarity)] else []
  }

  function Best(ranked: seq<(string, real)>, limit: nat): seq<(string, real)> {
    var sorted := Sort(ranked, Stronger);
    if |sorted| <= limit then sorted else sorted[..limit]
  }

  function Scored(p: Provider, documents: seq<Document>, vectors: seq<Vector>, limit: nat): Result
    requires |vectors| == |documents| + 1
  {
    if !SameDimensions(vectors) then Err(DimensionsChanged)
    else Ok(Best(Similar(p, vectors[0], documents, vectors, |documents|), limit))
  }

  /** The ranking when every text is embedded afresh. */
  function Fresh(p: Provider, query: string, documents: seq<Document>, limit: int): Result {
    if limit < 1 || documents == [] then Ok([])
    else if !Embeddable(p, Texts(p, query, documents)) then Err(InvalidVector)
    else Scored(p, documents, EmbedAll(p, Texts(p, query, documents)), limit)
  }

  // ---- the ranking spelt out ----

  /** The vector of a text, of which only the first characters are embedded. */
  ghost function VectorOf(p: Provider, text: string): Option<Vector> {
    p.embed(text[..if |text| < p.maxChars then |text| else p.maxChars])
  }

  ghost predicate AnyText(query: string, documents: seq<Document>, bad: string -> bool) {
    bad(query) || exists i :: 0 <= i < |documents| && bad(documents[i].text)
  }

  /** No vector, or one with another number of dimensions than the query's. */
  ghost function Unknown(p: Provider): string -> bool { (text: string) => VectorOf(p, text).None? }
  ghost function Unlike(p: Provider, query: string): string -> bool {
    (text: string) => VectorOf(p, text).Some? && VectorOf(p, query).Some?
            && |VectorOf(p, text).value| != |VectorOf(p, query).value|
  }

  /** A document with the similarity of its own vector to the query's. */
  ghost function Compared(p: Provider, query: Vector): Document -> (string, real) {
    (d: Document) => (d.id, if VectorOf(p, d.text).Some? then p.cosine(query, VectorOf(p, d.text).value) else 0.0)
  }

  ghost function NearEnough(p: Provider, query: Vector): Document -> bool {
    (d: Document) => Compared(p, query)(d).1 >= p.minSimilarity
  }

  /** The more similar first, then by identifier. */
  ghost predicate Nearer(a: (string, real), b: (string, real)) { a.1 > b.1 || (a.1 == b.1 && Precedes(a.0, b.0)) }

  /** The answer: each document that is near enough with its own similarity, the nearest first, as many as asked. */
  ghost predicate RanksNearest(p: Provider, query: string, documents: seq<Document>, limit: int, r: Result) {
    && (r == Err(InvalidVector) <==> limit >= 1 && documents != [] && AnyText(query, documents, Unknown(p)))
    && (r == Err(DimensionsChanged) <==>
          && limit >= 1 && documents != [] && !AnyText(query, documents, Unknown(p))
          && AnyText(query, documents, Unlike(p, query)))
    && (r.Ok? && (limit < 1 || documents == []) ==> r.ranked == [])
    && (r.Ok? && limit >= 1 && documents != [] ==>
          VectorOf(p, query).Some? &&
          var v := VectorOf(p, query).value;
          BestOf(Each(Filter(documents, NearEnough(p, v)), Compared(p, v)), Nearer, limit, r.ranked))
  }

  lemma {:induction false} SimilarExactly(p: Provider, query: Vector, documents: seq<Document>, vectors: seq<Vector>,
                                          n: nat)
    requires |vectors| == |documents| + 1 && n <= |documents|
    requires forall i :: 0 <= i < |documents| ==> VectorOf(p, documents[i].text) == Some(vectors[i + 1])
    ensures Similar(p, query, documents, vectors, n) ==
            Each(Filter(documents[..n], NearEnough(p, query)), Compared(p, query))
  {
    if n > 0 {
      SimilarExactly(p, query, documents, vectors, n - 1);
      var d, keep, compared := documents[n - 1], NearEnough(p, query), Compared(p, query);
      assert documents[..n] == documents[..n - 1] + [d];
      FilterConcat(documents[..n - 1], [d], keep);
      FilterOne(d, keep);
      EachConcat(Filter(documents[..n - 1], keep), Filter([d], keep), compared);
      assert VectorOf(p, d.text) == Some(vectors[n]);
    }
  }

  lemma BestExactly(all: seq<(string, real)>, limit: nat)
    ensures BestOf(all, Nearer, limit, Best(all, limit))
  {
    StrongerIsPreorder();
    SortCorrect(all, Stronger);
    var sorted := Sort(all, Stronger);
    forall i, j | 0 <= i < j < |sorted| ensures Nearer(sorted[i], sorted[j]) {
      StrLeqExactly(sorted[i].0, sorted[j].0);
      assert Stronger(sorted[i], sorted[j]);
    }
    assert IsListing(all, Nearer, limit, Best(all, limit), sorted);
  }

  lemma TextExactly(p: Provider, query: string, documents: seq<Document>, i: nat)
    requires i <= |documents|
    ensures p.embed(Texts(p, query, documents)[i]) == VectorOf(p, if i == 0 then query else documents[i - 1].text)
  {
    var text := if i == 0 then query else documents[i - 1].text;
    assert Texts(p, query, documents)[i] == Clip(p, text);
    assert Clip(p, text) == text[..if |text| < p.maxChars then |text| else p.maxChars];
  }

  lemma EmbeddableExactly(p: Provider, query: string, documents: seq<Document>)
    ensures Embeddable(p, Texts(p, query, documents)) <==> !AnyText(query, documents, Unknown(p))
  {
    var texts := Texts(p, query, documents);
    if Embeddable(p, texts) {
      TextExactly(p, query, documents, 0);
      forall i | 0 <= i < |documents| ensures !Unknown(p)(documents[i].text) {
        TextExactly(p, query, documents, i + 1);
        assert p.embed(texts[i + 1]).Some?;
      }
    } else {
      var i :| 0 <= i < |texts| && p.embed(texts[i]).None?;
      TextExactly(p, query, documents, i);
      if i > 0 { assert Unknown(p)(documents[i - 1].text); } else { assert Unknown(p)(query); }
    }
  }

  lemma DimensionsExactly(p: Provider, query: string, documents: seq<Document>, vectors: seq<Vector>)
    requires |vectors| == |documents| + 1 && VectorOf(p, query) == Some(vectors[0])
    requires forall i :: 0 <= i < |documents| ==> VectorOf(p, documents[i].text) == Some(vectors[i + 1])
    ensures SameDimensions(vectors) <==> !AnyText(query, documents, Unlike(p, query))
  {
    if SameDimensions(vectors) {
      forall i | 0 <= i < |documents| ensures !Unlike(p, query)(documents[i].text) {
        assert |vectors[i + 1]| == |vectors[0]|;
      }
    }
    if !AnyText(query, documents, Unlike(p, query)) {
      forall i | 0 <= i < |vectors| ensures |vectors[i]| == |vectors[0]| {
        if i > 0 { assert !Unlike(p, query)(documents[i - 1].text); }
      }
    }
  }

  /** The ranking without a cache, over nothing but the texts and their vectors. */
  lemma FreshExactly(p: Provider, query: string, documents: seq<Document>, limit: int)
    ensures RanksNearest(p, query, documents, limit, Fresh(p, query, documents, limit))
  {
    EmbeddableExactly(p, query, documents);
    var texts := Texts(p, query, documents);
    if limit >= 1 && documents != [] && Embeddable(p, texts) {
      var vectors := EmbedAll(p, texts);
      forall i | 0 <= i < |documents| ensures VectorOf(p, documents[i].text) == Some(vectors[i + 1]) {
        TextExactly(p, query, documents, i + 1);
      }
      TextExactly(p, query, documents, 0);
      DimensionsExactly(p, query, documents, vectors);
      SimilarExactly(p, vectors[0], documents, vectors, |documents|);
      assert documents[..|documents|] == documents;
      BestExactly(Similar(p, vectors[0], documents, vectors, |documents|), limit);
    }
  }

  // ---- with a cache ----

  /** The vectors on disk, by namespace and digest. */
  class Cache {
    var vectors: map<(string, string), Vector>

    constructor ()
      ensures vectors == map[]
    {
      vectors := map[];
    }

    function Get(space: string, digest: string): Option<Vector>
      reads this
    {
      if (space, digest) in vectors then Some(vectors[(space, digest)]) else None
    }

    method Put(space: string, digest: string, vector: Vector)
      modifies this
      ensures vectors == old(vectors)[(space, digest) := vector]
    {
      vectors := vectors[(space, digest) := vector];
    }

    /** What is cached in the provider's namespace is what the provider would answer. */
    ghost predicate Coherent(p: Provider)
      reads this
    {
      forall t :: (p.space, p.digest(t)) in vectors ==> p.embed(t) == Some(vectors[(p.space, p.digest(t))])
    }
  }

  /** Whoever computes embeddings; every request is recorded. */
  class Client {
    const embed: string -> Option<Vector>
    var requests: seq<seq<string>>

    constructor (embed: string -> Option<Vector>)
      ensures requests == [] && this.embed == embed
    {
      this.embed, requests := embed, [];
    }

    method Embed(texts: seq<string>) returns (r: seq<Option<Vector>>)
      modifies this
      ensures |r| == |texts| && forall i :: 0 <= i < |r| ==> r[i] == embed(texts[i])
      ensures requests == old(requests) + [texts]
    {
      requests := requests + [texts];
      r := seq(|texts|, i requires 0 <= i < |texts| => embed(texts[i]));
    }
  }

  predicate OtherSpacesKept(before: map<(string, string), Vector>, after: map<(string, string), Vector>,
                            space: string) {
    (forall k :: k in before ==>
       k in after
       && (k.0 != space ==> after[k] == before[k])) && forall k :: k in after && k !in before ==> k.0 == space
  }

  /** The loop over the texts: what the cache has, and the positions it has not. */
  method LookUp(p: Provider, cache: Cache, texts: seq<string>) returns (found: seq<Option<Vector>>, missing: seq<nat>)
    requires cache.Coherent(p)
    ensures |found| == |texts|
    ensures forall i :: 0 <= i < |texts| ==> found[i] == cache.Get(p.space, p.digest(texts[i]))
    ensures forall i :: i in missing <==> 0 <= i < |texts| && found[i].None?
  {
    found, missing := [], [];
    for i := 0 to |texts|
      invariant |found| == i && forall k :: 0 <= k < i ==> found[k] == cache.Get(p.space, p.digest(texts[k]))
      invariant forall k :: k in missing <==> 0 <= k < i && found[k].None?
    {
      var cached := cache.Get(p.space, p.digest(texts[i]));
      found := found + [cached];
      if cached.None? { missing := missing + [i]; }
    }
  }

  /** The loop over the generated vectors: each is checked, filled in and cached. */
  method FillIn(p: Provider, cache: Cache, texts: seq<string>, found: seq<Option<Vector>>, missing: seq<nat>,
                generated: seq<Option<Vector>>)
    returns (complete: bool, filled: seq<Option<Vector>>)
    requires p.Determined() && cache.Coherent(p) && |found| == |texts| && |generated| == |missing|
    requires forall i :: i in missing <==> 0 <= i < |texts| && found[i].None?
    requires forall k :: 0 <= k < |missing| ==> missing[k] < |texts| && generated[k] == p.embed(texts[missing[k]])
    requires forall i :: 0 <= i < |texts| && found[i].Some? ==>
               found[i] == p.embed(texts[i]) && (p.space, p.digest(texts[i])) in cache.vectors
    modifies cache
    ensures cache.Coherent(p) && OtherSpacesKept(old(cache.vectors), cache.vectors, p.space)
    ensures complete <==> Embeddable(p, texts)
    ensures complete ==> |filled| == |texts| && forall i :: 0 <= i < |texts| ==>
              filled[i].Some? && filled[i] == p.embed(texts[i]) && (p.space, p.digest(texts[i])) in cache.vectors
  {
    filled := found;
    for k := 0 to |missing|
      invariant cache.Coherent(p) && OtherSpacesKept(old(cache.vectors), cache.vectors, p.space) && |filled| == |texts|
      invariant forall i :: 0 <= i < |texts| && filled[i].Some? ==>
                  filled[i] == p.embed(texts[i]) && (p.space, p.digest(texts[i])) in cache.vectors
      invariant forall i :: 0 <= i < |texts| && filled[i].None? ==> exists m :: k <= m < |missing| && missing[m] == i
    {
      var index := missing[k];
      if generated[k].None? { return false, filled; }
      filled := filled[index := generated[k]];
      cache.Put(p.space, p.digest(texts[index]), generated[k].value);
    }
    return true, filled;
  }

  /** All texts are cached. */
  ghost predicate Warm(p: Provider, cache: Cache, texts: seq<string>)
    reads cache
  {
    forall i :: 0 <= i < |texts| ==> (p.space, p.digest(texts[i])) in cache.vectors
  }

  /** At most one more request, for exactly the texts not cached. */
  ghost predicate Requested(p: Provider, cached: map<(string, string), Vector>, texts: seq<string>,
                            before: seq<seq<string>>, after: seq<seq<string>>) {
    if after == before then forall t :: t in texts ==> (p.space, p.digest(t)) in cached else
      && |after| == |before| + 1 && before <= after
      && forall t :: t in after[|before|] <==> t in texts && (p.space, p.digest(t)) !in cached
  }

  /** The vectors of all texts, from the cache as far as it has them and from one request for the rest. */
  method Resolve(p: Provider, cache: Cache, client: Client, texts: seq<string>)
    returns (complete: bool, vectors: seq<Vector>)
    requires p.Determined() && cache.Coherent(p) && client.embed == p.embed
    modifies cache, client
    ensures cache.Coherent(p) && OtherSpacesKept(old(cache.vectors), cache.vectors, p.space)
    ensures complete <==> Embeddable(p, texts)
    ensures complete ==> Warm(p, cache, texts) && vectors == EmbedAll(p, texts)
    ensures old(Warm(p, cache, texts)) ==> client.requests == old(client.requests)
    ensures Requested(p, old(cache.vectors), texts, old(client.requests), client.requests)
  {
    var found, missing := LookUp(p, cache, texts);
    var filled := found;
    complete := true;
    if missing != [] {
      var asked := seq(|missing|, k requires 0 <= k < |missing| => assert missing[k] in missing; texts[missing[k]]);
      forall k | 0 <= k < |missing| ensures missing[k] < |texts| { assert missing[k] in missing; }
      AskedAre(p, cache.vectors, texts, found, missing, asked);
      var generated := client.Embed(asked);
      complete, filled := FillIn(p, cache, texts, found, missing, generated);
      assert missing[0] in missing;
    } else {
      assert forall i :: 0 <= i < |texts| ==> found[i].Some?;
    }
    if !complete { return false, []; }
    vectors := seq(|texts|, i requires 0 <= i < |texts| => if filled[i].Some? then filled[i].value else []);
    assert forall i :: 0 <= i < |texts| ==> p.embed(texts[i]) == filled[i] && filled[i].Some?;
    assert vectors == EmbedAll(p, texts);
  }

  lemma AskedAre(p: Provider, cached: map<(string, string), Vector>, texts: seq<string>, found: seq<Option<Vector>>,
                 missing: seq<nat>, asked: seq<string>)
    requires |found| == |texts| && |asked| == |missing|
    requires forall i :: 0 <= i < |texts| ==> (found[i].None? <==> (p.space, p.digest(texts[i])) !in cached)
    requires forall i :: i in missing <==> 0 <= i < |texts| && found[i].None?
    requires forall k :: 0 <= k < |missing| ==> missing[k] < |texts| && asked[k] == texts[missing[k]]
    ensures forall t :: t in asked <==> t in texts && (p.space, p.digest(t)) !in cached
  {
    forall t | t in texts && (p.space, p.digest(t)) !in cached ensures t in asked {
      var i :| 0 <= i < |texts| && texts[i] == t;
      var k :| 0 <= k < |missing| && missing[k] == i;
      assert asked[k] == t;
    }
    forall t | t in asked ensures t in texts && (p.space, p.digest(t)) !in cached {
      var k :| 0 <= k < |asked| && asked[k] == t;
      assert missing[k] in missing;
    }
  }

  /** The loop over the documents. */
  method ScoreDocuments(p: Provider, documents: seq<Document>, vectors: seq<Vector>)
    returns (ranked: seq<(string, real)>)
    requires |vectors| == |documents| + 1
    ensures ranked == Similar(p, vectors[0], documents, vectors, |documents|)
  {
    ranked := [];
    for n := 0 to |documents|
      invariant ranked == Similar(p, vectors[0], documents, vectors, n)
    {
      var similarity := p.cosine(vectors[0], vectors[n + 1]);
      if similarity >= p.minSimilarity { ranked := ranked + [(documents[n].id, similarity)]; }
    }
  }

  /** _rank: the same ranking as without a cache, at most one request, for exactly the texts not
      cached, and none at all when asked again. */
  method Rank(p: Provider, cache: Cache?, client: Client, query: string, documents: seq<Document>, limit: int)
    returns (r: Result)
    requires p.Determined() && client.embed == p.embed && (cache != null ==> cache.Coherent(p))
    modifies cache, client
    ensures r == Fresh(p, query, documents, limit) && RanksNearest(p, query, documents, limit, r)
    ensures cache != null ==> cache.Coherent(p) && OtherSpacesKept(old(cache.vectors), cache.vectors, p.space)
    ensures cache != null && limit >= 1 && documents != [] ==>
              Requested(p, old(cache.vectors), Texts(p, query, documents), old(client.requests), client.requests)
    ensures cache == null && limit >= 1 && documents != [] ==>
              Requested(p, map[], Texts(p, query, documents), old(client.requests), client.requests)
    ensures limit < 1 || documents == [] ==> client.requests == old(client.requests)
    ensures cache != null && old(Warm(p, cache, Texts(p, query, documents))) ==> client.requests == old(client.requests)
    ensures cache != null && r.Ok? && limit >= 1 && documents != [] ==> Warm(p, cache, Texts(p, query, documents))
  {
    FreshExactly(p, query, documents, limit);
    if limit < 1 || documents == [] { return Ok([]); }
    var texts := Texts(p, query, documents);
    var complete, vectors;
    if cache != null {
      complete, vectors := Resolve(p, cache, client, texts);
    } else {
      var none := new Cache();
      complete, vectors := Resolve(p, none, client, texts);
    }
    if !complete { return Err(InvalidVector); }
    if exists i :: 0 <= i < |vectors| && |vectors[i]| != |vectors[0]| { return Err(DimensionsChanged); }
    var ranked := ScoreDocuments(p, documents, vectors);
    return Ok(Best(ranked, limit));
  }
}
