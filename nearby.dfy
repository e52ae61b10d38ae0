/** `GET /nearby` and the name search `GET /search` of Backend/models/Place.js. The catalog
    is what `Place.find()` returns, in its natural order. */
module Nearby {
  import opened Wrappers
  import opened Seqs
  import opened Catalog
  import Strings

  /** `/nearby` returns at most this many places. */
  const NEARBY_LIMIT: nat := 6

  /** The response of `/nearby`: the optionally ranked catalog, cut to its first six. */
  function NearbyResult(catalog: seq<Place>, lat: Option<string>, lon: Option<string>,
                        parseFloat: string -> real, distance: DistanceFn): (r: seq<Place>)
    ensures |r| == Min(NEARBY_LIMIT, |catalog|)
    ensures r == Ranked(catalog, RefPointOf(lat, lon, parseFloat), distance)[..|r|]
  {
    Take(Ranked(catalog, RefPointOf(lat, lon, parseFloat), distance), NEARBY_LIMIT)
  }

  /** The handler: copies the fetched documents into an array, sorts it in place when both
      query values are present, and slices off the first six. */
  method Nearby(catalog: seq<Place>, lat: Option<string>, lon: Option<string>,
                parseFloat: string -> real, distance: DistanceFn) returns (result: seq<Place>)
    ensures result == NearbyResult(catalog, lat, lon, parseFloat, distance)
  {
    var places := new Place[|catalog|](i requires 0 <= i < |catalog| => catalog[i]);
    assert places[..] == catalog;
    var ref := RefPointOf(lat, lon, parseFloat);
    RankInPlace(places, ref, distance);
    result := places[..Min(NEARBY_LIMIT, places.Length)];
  }

  /** At most six places, each drawn from the catalog no more often than it occurs there;
      without both query values, the first six in catalog order. */
  lemma NearbyBounded(catalog: seq<Place>, lat: Option<string>, lon: Option<string>,
                      parseFloat: string -> real, distance: DistanceFn)
    ensures var r := NearbyResult(catalog, lat, lon, parseFloat, distance);
      && |r| == Min(NEARBY_LIMIT, |catalog|)
      && multiset(r) <= multiset(catalog)
      && (!(Present(lat) && Present(lon)) ==> r == Take(catalog, NEARBY_LIMIT))
  {
    RankedPrefixBounded(catalog, RefPointOf(lat, lon, parseFloat), distance, NEARBY_LIMIT);
  }

  /** With both query values present, the places with coordinates come out nearest first
      and before every place without coordinates, and the places without coordinates keep
      their catalog order. */
  lemma NearbyNearestFirst(catalog: seq<Place>, lat: string, lon: string,
                           parseFloat: string -> real, distance: DistanceFn)
    requires lat != "" && lon != ""
    ensures var ref := RefPoint(parseFloat(lat), parseFloat(lon));
      var r := NearbyResult(catalog, Some(lat), Some(lon), parseFloat, distance);
      && (forall i, j :: 0 <= i < j < |r| && HasCoordinates(r[i]) && HasCoordinates(r[j]) ==>
            Km(ref, r[i], distance) <= Km(ref, r[j], distance))
      && (forall i, j :: 0 <= i < j < |r| && HasCoordinates(r[j]) ==> HasCoordinates(r[i]))
    ensures var r := NearbyResult(catalog, Some(lat), Some(lon), parseFloat, distance);
      var kept := Filter(r, LacksCoordinates);
      |kept| <= |Filter(catalog, LacksCoordinates)| && kept == Filter(catalog, LacksCoordinates)[..|kept|]
  {
    RankedPrefixOrdered(catalog, RefPoint(parseFloat(lat), parseFloat(lon)), distance, NEARBY_LIMIT);
  }

  /** `query || ''`: an absent or empty query becomes the empty pattern. */
  function NamePattern(query: Option<string>): (pattern: string)
    ensures Present(query) ==> pattern == query.value
    ensures !Present(query) ==> pattern == ""
  {
    if query.Some? then query.value else ""
  }

  function NameMatches(pattern: string): Place -> bool {
    (p: Place) => Strings.ContainsIgnoreCase(p.name, pattern)
  }

  /** `Place.find({ name: { $regex: query || '', $options: 'i' } })`, with the pattern read as
      a literal. */
  function SearchByName(catalog: seq<Place>, query: Option<string>): (r: seq<Place>)
    ensures |r| <= |catalog|
    ensures forall i :: 0 <= i < |r| ==> r[i] in catalog
  {
    Filter(catalog, NameMatches(NamePattern(query)))
  }

  /** Exactly the places whose name contains the query, ignoring case, in catalog order. */
  lemma SearchByNameExact(catalog: seq<Place>, query: Option<string>)
    ensures var r := SearchByName(catalog, query);
      && (forall i :: 0 <= i < |r| ==> r[i] in catalog && Strings.ContainsIgnoreCase(r[i].name, NamePattern(query)))
      && (forall i :: 0 <= i < |catalog| && Strings.ContainsIgnoreCase(catalog[i].name, NamePattern(query)) ==> catalog[i] in r)
    ensures forall a: seq<Place>, b: seq<Place> {:trigger SearchByName(a + b, query)} ::
      SearchByName(a + b, query) == SearchByName(a, query) + SearchByName(b, query)
  {
    var r := SearchByName(catalog, query);
    var f := NameMatches(NamePattern(query));
    forall i | 0 <= i < |r| ensures Strings.ContainsIgnoreCase(r[i].name, NamePattern(query)) {
      assert f(r[i]);
    }
    forall i | 0 <= i < |catalog| && Strings.ContainsIgnoreCase(catalog[i].name, NamePattern(query))
      ensures catalog[i] in r
    {
      assert f(catalog[i]);
    }
    forall a: seq<Place>, b: seq<Place>
      ensures SearchByName(a + b, query) == SearchByName(a, query) + SearchByName(b, query)
    {
      FilterAppend(a, b, f);
    }
  }

  /** An absent or empty `query` matches every place. */
  lemma {:induction false} EmptyQueryMatchesAll(catalog: seq<Place>, query: Option<string>)
    requires !Present(query)
    ensures SearchByName(catalog, query) == catalog
  {
    forall i | 0 <= i < |catalog| ensures NameMatches(NamePattern(query))(catalog[i]) {
      Strings.EmptyPatternMatches(catalog[i].name);
    }
    FilterKeepsAll(catalog, NameMatches(NamePattern(query)));
  }
}
