# PlaceMate recommender: a Dafny model

PlaceMate recommends places for a free-text query. At startup it reads a list
of place records and keeps those with a non-empty `clean_texts` list. For
each kept place it builds a description (the `clean_texts` joined with single
spaces) and a metadata entry (name, address, place id). It embeds every
description once. A `/recommend` request strips the query text, rejects an
empty query (400) and then an empty corpus (503), and clamps `top_k` into
`[1, N]`. It then scores every place by cosine similarity against the
embedded query. The answer is the `top_k` best-scoring places, best first,
each with its name, address and score.

This project models the two deterministic parts of `backend/app.py`:

- **Corpus indexing** (`places.dfy`, module `Places`). A record is a
  datatype whose JSON keys may be absent, `null` or present. The startup
  loop is the method `IndexPlaces`, which appends to two sequences. It is
  proved equal to pure prefix-recursive definitions (`Texts`, `Metas`).
  Lemmas show the two lists are aligned with the positions of exactly the
  records that have text, in their original order.
- **The request pipeline** (`recommender.dfy`, module `Recommender`). The
  similarity scores are an input: one integer per indexed place. Only their
  order matters to the pipeline. Validation and the clamp are functions. The
  loop that builds the result list is a method. `Recommend` runs the whole
  request and returns the response or one of the two errors.

Supporting modules:

- `Text`: Python's `str.strip()` (with `str.isspace()`'s whitespace set), and
  `" ".join`. `split(" ")` is a left inverse of the join when no part holds a
  space.
- `Ranking`: the contract of `torch.topk(..., largest=True)` as the predicate
  `IsTopK`, and a reference selection `TopK` proved to meet it.
- `Wrappers`: `Option` (Python's `None`) and `Result` (the HTTP errors).

A request returns `max(1, min(top_k, N))` results, so a `top_k` of 0 or less
still gives one result.

## Model

| member | source | states |
|---|---|---|
| `Text.Strip` | backend/app.py:62 | the stripped query is empty exactly when the text is all whitespace; otherwise it neither starts nor ends with whitespace |
| `Text.StripIsFactor` | backend/app.py:62 | the stripped query is a contiguous slice of the text; only whitespace lies before and after it |
| `Text.StripIdempotent` | backend/app.py:62 | stripping the stripped query changes nothing |
| `Text.Join` | backend/app.py:27 | the description is as long as its parts plus one space per gap, starts with the first part, and a space follows that first part when there are more |
| `Text.JoinConcat` | backend/app.py:27 | joining two non-empty lists of parts equals joining each and putting one space between them, whatever the parts contain |
| `Text.SplitJoin` | backend/app.py:27 | splitting a place description on spaces gives back its `clean_texts`, when no entry holds a space |
| `Text.JoinSplit` | backend/app.py:27 | joining the space-separated pieces of any string with single spaces rebuilds that string |
| `Places.MetaOf` | backend/app.py:28-32 | `name` is the record's name when present and non-empty, else its `place_id`; `address` is `""` when absent and `None` when null; `place_id` is copied |
| `Places.KeptIndicesExact` | backend/app.py:23-26 | the indexed positions are strictly increasing and in range; each has a non-empty `clean_texts`, and every such record is indexed |
| `Places.IndexAligned` | backend/app.py:23-32 | `place_texts` and `place_meta` have one entry per indexed record; entry `k` of both is built from the same record |
| `Places.EmptyCorpusIff` | backend/app.py:23-32 | the corpus is empty exactly when no record has a non-empty `clean_texts` |
| `Places.IndexPlaces` | backend/app.py:19-32 | the loop builds the two aligned lists: equal length, entry `k` holds the joined text and metadata of the `k`-th record with text |
| `Ranking.BestUntaken` | backend/app.py:83 | the best-scoring position not yet selected: no free position scores higher; `None` only when all are taken |
| `Ranking.IsTopK` | backend/app.py:83 | the contract of `torch.topk(sims, k, largest=True)` with sorted output; a selection meeting it exists only when `k <= N` |
| `Ranking.DistinctFits` | backend/app.py:83 | distinct in-range positions number at most `N`, so no valid selection picks more places than the corpus holds |
| `Ranking.ScoresAt` | backend/app.py:83 | the `values` half of `torch.topk`'s answer: one value per selected index, the score at that index |
| `Ranking.TopK` | backend/app.py:83 | `k` distinct in-range positions with non-increasing scores; no position left out scores above a selected one |
| `Ranking.StrictBestRanksFirst` | backend/app.py:83 | a place scoring strictly above all others is ranked first |
| `Ranking.ScoreBoundAt` | backend/app.py:83 | for two valid top-k selections, position `a` of one scores no higher than position `a` of the other |
| `Ranking.TopKScoresUnique` | backend/app.py:83 | any two valid top-k selections have the same score sequence, whatever the order of ties |
| `Recommender.HttpError.Status` | backend/app.py:63-67 | the empty query is the only client error (400); the empty corpus is the only 503 |
| `Recommender.HttpError.Detail` | backend/app.py:64-67 | each error carries a non-empty message, and `"Empty query"` belongs to the empty-query error alone |
| `Recommender.CheckRequest` | backend/app.py:62-67 | an all-whitespace query fails with 400 even on an empty corpus; otherwise an empty corpus fails with 503; otherwise the stripped, non-empty query goes on |
| `Recommender.ClampTopK` | backend/app.py:80 | with at least one place the count is in `[1, N]`; it equals `top_k` inside the range, 1 for `top_k <= 0`, and `N` for `top_k > N` |
| `Recommender.AssembleResults` | backend/app.py:85-92 | one result per (score, index) pair, in order, with the name and address of the place at that index and that score |
| `Recommender.Recommend` | backend/app.py:60-94 | errors 400 then 503 as above; otherwise the response echoes the stripped query and holds exactly the clamped number of results, scores non-increasing; the results describe a valid top-k selection, each with its place's metadata and score |

## Left out

- Model loading, `model.encode` and `util.cos_sim` (backend/app.py:14, 36-41, 70-77): a foreign neural encoder and floating-point similarity. The scores are a caller-supplied integer sequence, one per indexed place.
- Reading `artifacts/places.json` (backend/app.py:16-17): file I/O. The records are an input sequence.
- The FastAPI app, routing, pydantic parsing and `HTTPException` transport (backend/app.py:1-8, 56-60): the two errors are values of `HttpError` with their status code and detail text. The `or ""` on the query text is dropped: the request schema makes `text` a required string, so it is never `None`.
- The `/health` endpoint (backend/app.py:43-51): a diagnostic over tensor shape and device. Its `num_places` is `|placeMeta|`; `Places.EmptyCorpusIff` says when that is 0.
- The `float(score)` cast (backend/app.py:91): serialisation of a tensor value.
- Ranking.TopK: the order that `torch.topk` gives equal scores is unspecified. `Recommend` promises only that the results form some valid top-k selection, and `TopK` (which prefers the lower position on ties) is one such selection. `Ranking.TopKScoresUnique` shows the returned scores do not depend on that choice.
- JSON values of other types are not modelled: `name`, `address` and `place_id` are strings or `null`, and `clean_texts` is a list of strings or `null`. Falsy values of another type (`0`, `false`, `""`, `{}`) would be skipped like an empty list by `not ct`. A non-empty string would be joined character by character, and an object would be joined over its keys. A list holding a non-string would make `" ".join` raise.
- The module-level lists are modelled as the two sequences that `IndexPlaces` returns, which `Recommend` then reads.
