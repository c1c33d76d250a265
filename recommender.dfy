/** The `/recommend` request: validate the query text and the corpus,
    clamp `top_k`, take the `top_k` best-scoring places and pair each with
    its metadata. The similarity scores (encoder plus cosine similarity)
    are an input: one score per indexed place. */
module Recommender {
  import opened Wrappers
  import Text
  import Places
  import Ranking

  /** The two errors the endpoint raises as `HTTPException`s. */
  datatype HttpError = EmptyQuery | NoPlaces
  {
    /** A client error for the bad query, a server-side error for the
        missing corpus. */
    function Status(): (s: int)
      ensures 400 <= s < 600
      ensures s < 500 <==> this == EmptyQuery
      ensures s == 503 <==> this == NoPlaces
    {
      match this
      case EmptyQuery => 400
      case NoPlaces => 503
    }

    /** The message carried by the exception; the two errors never share
        one. */
    function Detail(): (d: string)
      ensures |d| > 0
      ensures d == "Empty query" <==> this == EmptyQuery
    {
      match this
      case EmptyQuery => "Empty query"
      case NoPlaces => "No places with clean_texts loaded"
    }
  }

  /** The request body; `top_k` defaults to 5 when the client omits it. */
  datatype Query = Query(text: string, topK: int := 5)

  /** One entry of the `results` list. */
  datatype Recommendation = Recommendation(name: Option<string>, address: Option<string>, score: int)

  /** The response body. */
  datatype Response = Response(query: string, results: seq<Recommendation>)

  /** The checks made before any encoding: the stripped query must be
      non-empty (400), then the corpus must be non-empty (503). The empty
      query is reported first, whatever the corpus. */
  function CheckRequest(text: string, numPlaces: nat): (r: Result<string, HttpError>)
    ensures Text.AllSpace(text) ==> r == Failure(EmptyQuery)
    ensures !Text.AllSpace(text) && numPlaces == 0 ==> r == Failure(NoPlaces)
    ensures !Text.AllSpace(text) && numPlaces > 0 ==> r.Success? && r.value != []
    ensures r.Success? ==> r.value == Text.Strip(text)
    ensures r.Failure? ==> r.error.Status() == (if Text.AllSpace(text) then 400 else 503)
  {
    var stripped := Text.Strip(text);
    if stripped == [] then Failure(EmptyQuery)
    else if numPlaces == 0 then Failure(NoPlaces)
    else Success(stripped)
  }

  function Min(a: int, b: int): int { if a <= b then a else b }

  function Max(a: int, b: int): int { if a >= b then a else b }

  /** `max(1, min(top_k, n))`: never an error, the request is adjusted
      into `[1, n]` when there is at least one place. */
  function ClampTopK(topK: int, n: int): (k: int)
    ensures n >= 1 ==> 1 <= k <= n
    ensures 1 <= topK <= n ==> k == topK
    ensures topK <= 0 ==> k == 1
    ensures n >= 1 && topK > n ==> k == n
  {
    Max(1, Min(topK, n))
  }

  /** `results[a]` reports the place at `idx[a]`: its name and address
      from the metadata and its similarity score. */
  predicate Describes(placeMeta: seq<Places.PlaceMeta>, sims: seq<int>, idx: seq<nat>,
                      results: seq<Recommendation>)
  {
    && |idx| == |results|
    && forall a :: 0 <= a < |idx| ==>
         && idx[a] < |placeMeta| && idx[a] < |sims|
         && results[a] == Recommendation(placeMeta[idx[a]].name, placeMeta[idx[a]].address, sims[idx[a]])
  }

  /** The loop over `zip(values, indices)`: one result per pair, in order. */
  method AssembleResults(placeMeta: seq<Places.PlaceMeta>, values: seq<int>, indices: seq<nat>)
    returns (results: seq<Recommendation>)
    requires forall a :: 0 <= a < |indices| ==> indices[a] < |placeMeta|
    ensures |results| == Min(|values|, |indices|)
    ensures forall a :: 0 <= a < |results| ==>
              results[a] == Recommendation(placeMeta[indices[a]].name, placeMeta[indices[a]].address, values[a])
  {
    results := [];
    for a := 0 to Min(|values|, |indices|)
      invariant |results| == a
      invariant forall b :: 0 <= b < a ==>
                  results[b] == Recommendation(placeMeta[indices[b]].name, placeMeta[indices[b]].address, values[b])
    {
      var meta := placeMeta[indices[a]];
      results := results + [Recommendation(meta.name, meta.address, values[a])];
    }
  }

  /** The whole request over an indexed corpus `placeMeta` whose similarity
      scores against the query are `sims`. */
  method Recommend(placeMeta: seq<Places.PlaceMeta>, sims: seq<int>, query: Query)
    returns (r: Result<Response, HttpError>)
    requires |sims| == |placeMeta|
    ensures Text.AllSpace(query.text) ==> r == Failure(EmptyQuery)
    ensures !Text.AllSpace(query.text) && |placeMeta| == 0 ==> r == Failure(NoPlaces)
    ensures !Text.AllSpace(query.text) && |placeMeta| > 0 ==>
              && r.Success?
              && r.value.query == Text.Strip(query.text)
              && |r.value.results| == ClampTopK(query.topK, |placeMeta|)
              && (forall a, b :: 0 <= a < b < |r.value.results| ==>
                    r.value.results[a].score >= r.value.results[b].score)
              && exists idx :: Ranking.IsTopK(sims, |r.value.results|, idx) &&
                               Describes(placeMeta, sims, idx, r.value.results)
  {
    var checked := CheckRequest(query.text, |placeMeta|);
    if checked.Failure? {
      return Failure(checked.error);
    }
    var text := checked.value;
    var topK := ClampTopK(query.topK, |placeMeta|);
    var indices := Ranking.TopK(sims, topK);
    var values := Ranking.ScoresAt(sims, indices);
    var results := AssembleResults(placeMeta, values, indices);
    assert Describes(placeMeta, sims, indices, results);
    return Success(Response(text, results));
  }
}
