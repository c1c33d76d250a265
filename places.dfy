/** Corpus indexing: the startup loop that turns the place records read from
    `places.json` into two aligned lists, the description texts to embed and
    the display metadata of each embedded place. */
module Places {
  import opened Wrappers
  import Text

  /** A key of a JSON object: absent, present with `null`, or present with
      a value. `dict.get` tells the first two apart only through its
      default. */
  datatype Field<+T> = Missing | Null | Value(v: T)

  /** One entry of `places.json`. */
  datatype PlaceRecord = PlaceRecord(
    placeId: Field<string>,
    name: Field<string>,
    address: Field<string>,
    cleanTexts: Field<seq<string>>)

  /** The metadata kept for an indexed place; `None` is Python's `None`. */
  datatype PlaceMeta = PlaceMeta(name: Option<string>, address: Option<string>, placeId: Option<string>)

  /** `d.get(key, default)`: the default only when the key is absent. */
  function Get<T>(f: Field<T>, default: Option<T>): Option<T>
  {
    match f
    case Missing => default
    case Null => None
    case Value(v) => Some(v)
  }

  /** Python truthiness of an optional string: neither `None` nor `""`. */
  predicate Truthy(o: Option<string>)
  {
    o.Some? && o.value != []
  }

  /** Python's `a or b` on optional strings. */
  function Or(a: Option<string>, b: Option<string>): Option<string>
  {
    if Truthy(a) then a else b
  }

  /** `p.get("clean_texts", [])`. */
  function CleanTexts(p: PlaceRecord): Option<seq<string>>
  {
    Get(p.cleanTexts, Some([]))
  }

  /** A record is indexed unless `not ct`: its `clean_texts` is absent,
      `null` or empty. */
  predicate HasText(p: PlaceRecord)
  {
    CleanTexts(p).Some? && |CleanTexts(p).value| > 0
  }

  /** The description embedded for an indexed record. */
  function TextOf(p: PlaceRecord): string
    requires HasText(p)
  {
    Text.Join(CleanTexts(p).value)
  }

  /** The metadata entry built for an indexed record. */
  function MetaOf(p: PlaceRecord): (m: PlaceMeta)
    ensures p.placeId.Value? ==> m.placeId == Some(p.placeId.v)
    ensures !p.placeId.Value? ==> m.placeId == None
    ensures p.name.Value? && p.name.v != [] ==> m.name == Some(p.name.v)
    ensures !(p.name.Value? && p.name.v != []) ==> m.name == m.placeId
    ensures p.address.Missing? ==> m.address == Some([])
    ensures p.address.Null? ==> m.address == None
    ensures p.address.Value? ==> m.address == Some(p.address.v)
  {
    PlaceMeta(
      Or(Get(p.name, None), Get(p.placeId, None)),
      Get(p.address, Some([])),
      Get(p.placeId, None))
  }

  /** `place_texts` after the loop has seen `ps`. */
  function Texts(ps: seq<PlaceRecord>): seq<string>
  {
    if |ps| == 0 then []
    else
      var last := ps[|ps| - 1];
      Texts(ps[..|ps| - 1]) + (if HasText(last) then [TextOf(last)] else [])
  }

  /** `place_meta` after the loop has seen `ps`. */
  function Metas(ps: seq<PlaceRecord>): seq<PlaceMeta>
  {
    if |ps| == 0 then []
    else
      var last := ps[|ps| - 1];
      Metas(ps[..|ps| - 1]) + (if HasText(last) then [MetaOf(last)] else [])
  }

  /** The positions in `ps` of the records that are indexed, in order. */
  function KeptIndices(ps: seq<PlaceRecord>): seq<nat>
  {
    if |ps| == 0 then []
    else KeptIndices(ps[..|ps| - 1]) + (if HasText(ps[|ps| - 1]) then [|ps| - 1] else [])
  }

  /** The kept positions are exactly the records with text, each once and
      in their original order. */
  lemma {:induction false} KeptIndicesExact(ps: seq<PlaceRecord>)
    ensures forall k :: 0 <= k < |KeptIndices(ps)| ==>
              KeptIndices(ps)[k] < |ps| && HasText(ps[KeptIndices(ps)[k]])
    ensures forall a, b :: 0 <= a < b < |KeptIndices(ps)| ==> KeptIndices(ps)[a] < KeptIndices(ps)[b]
    ensures forall j :: 0 <= j < |ps| && HasText(ps[j]) ==> j in KeptIndices(ps)
  {
    if |ps| > 0 {
      var n := |ps| - 1;
      var init := ps[..n];
      KeptIndicesExact(init);
      var kept := KeptIndices(init);
      assert KeptIndices(ps) == kept + (if HasText(ps[n]) then [n] else []);
      forall k | 0 <= k < |kept| ensures kept[k] < n && ps[kept[k]] == init[kept[k]] {
      }
      forall j | 0 <= j < |ps| && HasText(ps[j]) ensures j in KeptIndices(ps) {
        if j < n {
          assert ps[j] == init[j];
          assert j in kept;
        }
      }
    }
  }

  /** The two lists have one entry per kept record: entry `k` of each is
      built from the same record, the one at `KeptIndices(ps)[k]`. */
  lemma {:induction false} IndexAligned(ps: seq<PlaceRecord>)
    ensures |Texts(ps)| == |Metas(ps)| == |KeptIndices(ps)|
    ensures forall k :: 0 <= k < |KeptIndices(ps)| ==>
              KeptIndices(ps)[k] < |ps| && HasText(ps[KeptIndices(ps)[k]]) &&
              Texts(ps)[k] == TextOf(ps[KeptIndices(ps)[k]]) &&
              Metas(ps)[k] == MetaOf(ps[KeptIndices(ps)[k]])
  {
    KeptIndicesExact(ps);
    if |ps| > 0 {
      var init := ps[..|ps| - 1];
      IndexAligned(init);
      forall k | 0 <= k < |KeptIndices(init)|
        ensures ps[KeptIndices(init)[k]] == init[KeptIndices(init)[k]]
      {
      }
    }
  }

  /** The corpus is empty exactly when no record has text. */
  lemma {:induction false} EmptyCorpusIff(ps: seq<PlaceRecord>)
    ensures |Metas(ps)| == 0 <==> forall j :: 0 <= j < |ps| ==> !HasText(ps[j])
  {
    KeptIndicesExact(ps);
    IndexAligned(ps);
    if |Metas(ps)| != 0 {
      var j := KeptIndices(ps)[0];
      assert j < |ps| && HasText(ps[j]);
    }
  }

  /** The startup loop: walk the records in order, skip those without
      text, and append the joined text and the metadata of the others. */
  method IndexPlaces(places: seq<PlaceRecord>) returns (placeTexts: seq<string>, placeMeta: seq<PlaceMeta>)
    ensures placeTexts == Texts(places) && placeMeta == Metas(places)
    ensures |placeTexts| == |placeMeta| == |KeptIndices(places)|
    ensures forall k :: 0 <= k < |placeMeta| ==>
              KeptIndices(places)[k] < |places| && HasText(places[KeptIndices(places)[k]]) &&
              placeTexts[k] == TextOf(places[KeptIndices(places)[k]]) &&
              placeMeta[k] == MetaOf(places[KeptIndices(places)[k]])
  {
    placeTexts, placeMeta := [], [];
    for i := 0 to |places|
      invariant placeTexts == Texts(places[..i])
      invariant placeMeta == Metas(places[..i])
    {
      assert places[..i + 1][..i] == places[..i];
      var p := places[i];
      var ct := CleanTexts(p);
      if ct.None? || |ct.value| == 0 {
        continue;
      }
      placeTexts := placeTexts + [Text.Join(ct.value)];
      placeMeta := placeMeta + [MetaOf(p)];
    }
    assert places[..|places|] == places;
    IndexAligned(places);
  }
}
