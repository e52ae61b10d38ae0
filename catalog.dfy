/** The place catalog as the routes read it, and the distance key their sort comparator uses. */
module Catalog {
  import opened Wrappers
  import opened Seqs
  import Ranking

  type PlaceId = string

  /** A catalog document. `lat`/`lon` are absent (None) or a number; NaN is not modelled. */
  datatype Place = Place(
    id: PlaceId,
    name: string,
    location: string,
    tags: seq<string>,
    lat: Option<real>,
    lon: Option<real>)

  /** JavaScript truthiness of a coordinate field: undefined, null and 0 are falsy. */
  predicate Truthy(x: Option<real>): (b: bool)
    ensures x.None? ==> !b
    ensures x == Some(0.0) ==> !b
    ensures x.Some? && x.value != 0.0 ==> b
  {
    x.Some? && x.value != 0.0
  }

  /** `a.lat && a.lon`: the comparator gives a place a finite distance only when both hold. */
  predicate HasCoordinates(p: Place): (b: bool)
    ensures b <==> p.lat.Some? && p.lon.Some? && p.lat.value != 0.0 && p.lon.value != 0.0
    ensures p.lat == Some(0.0) || p.lon == Some(0.0) ==> !b
  {
    Truthy(p.lat) && Truthy(p.lon)
  }

  predicate LacksCoordinates(p: Place) {
    !HasCoordinates(p)
  }

  /** JavaScript truthiness of a query-string value: present and not the empty string
      (so "0" is truthy). */
  predicate Present(q: Option<string>): (b: bool)
    ensures q.None? || q == Some("") ==> !b
    ensures q == Some("0") ==> b
  {
    q.Some? && q.value != ""
  }

  /** The reference point `parseFloat(lat), parseFloat(lon)`. */
  datatype RefPoint = RefPoint(lat: real, lon: real)

  /** The great-circle distance, left uninterpreted: (lat1, lon1, lat2, lon2) to km. */
  type DistanceFn = (real, real, real, real) -> real

  /** `if (lat && lon)`: ranking happens only when both query values are present. */
  function RefPointOf(lat: Option<string>, lon: Option<string>, parseFloat: string -> real): (r: Option<RefPoint>)
    ensures r.Some? <==> Present(lat) && Present(lon)
  {
    if Present(lat) && Present(lon) then Some(RefPoint(parseFloat(lat.value), parseFloat(lon.value)))
    else None
  }

  /** The km from the reference point to a place that has coordinates. */
  function Km(ref: RefPoint, p: Place, distance: DistanceFn): real
    requires HasCoordinates(p)
  {
    distance(ref.lat, ref.lon, p.lat.value, p.lon.value)
  }

  /** `distA` / `distB` in the comparator: the distance, or Infinity without coordinates. */
  function DistanceKey(ref: RefPoint, distance: DistanceFn): (key: Place -> Ranking.Dist)
    ensures forall p :: key(p).Infinity? <==> !HasCoordinates(p)
    ensures forall p :: HasCoordinates(p) ==> key(p) == Ranking.Finite(Km(ref, p, distance))
  {
    p => if HasCoordinates(p) then Ranking.Finite(Km(ref, p, distance)) else Ranking.Infinity
  }

  /** The candidate list after the optional `places.sort(...)`. */
  function Ranked(places: seq<Place>, ref: Option<RefPoint>, distance: DistanceFn): (r: seq<Place>)
    ensures |r| == |places|
    ensures ref.None? ==> r == places
  {
    if ref.None? then places else Ranking.StableSort(places, DistanceKey(ref.value, distance))
  }

  /** Without a reference point the order is left as it is; with one it is a permutation. */
  lemma RankedPermutes(places: seq<Place>, ref: Option<RefPoint>, distance: DistanceFn)
    ensures |Ranked(places, ref, distance)| == |places|
    ensures multiset(Ranked(places, ref, distance)) == multiset(places)
    ensures ref.None? ==> Ranked(places, ref, distance) == places
  {
    if ref.Some? {
      Ranking.StableSortPermutes(places, DistanceKey(ref.value, distance));
    }
  }

  /** Places with coordinates come out nearest first, and every place with coordinates comes
      before every place without. */
  lemma RankedNearestFirst(places: seq<Place>, ref: RefPoint, distance: DistanceFn)
    ensures var r := Ranked(places, Some(ref), distance);
      forall i, j :: 0 <= i < j < |r| && HasCoordinates(r[i]) && HasCoordinates(r[j]) ==>
        Km(ref, r[i], distance) <= Km(ref, r[j], distance)
    ensures var r := Ranked(places, Some(ref), distance);
      forall i, j :: 0 <= i < j < |r| && HasCoordinates(r[j]) ==> HasCoordinates(r[i])
  {
    var key := DistanceKey(ref, distance);
    var r := Ranked(places, Some(ref), distance);
    Ranking.StableSortSorted(places, key);
    forall i, j | 0 <= i < j < |r|
      ensures Ranking.Compare(key(r[i]), key(r[j])) <= 0
    {
    }
  }

  /** Places without coordinates keep their relative input order (the sort is stable and
      they all compare equal). */
  lemma RankedCoordinatelessStable(places: seq<Place>, ref: RefPoint, distance: DistanceFn)
    ensures Filter(Ranked(places, Some(ref), distance), LacksCoordinates) == Filter(places, LacksCoordinates)
  {
    var key := DistanceKey(ref, distance);
    var sorted := Ranking.StableSort(places, key);
    Ranking.StableSortStable(places, key, Ranking.Infinity);
    RankedPermutes(places, Some(ref), distance);
    forall i | 0 <= i < |sorted| ensures Ranking.HasKey(key, Ranking.Infinity)(sorted[i]) == LacksCoordinates(sorted[i]) {
    }
    FilterSameOn(sorted, Ranking.HasKey(key, Ranking.Infinity), LacksCoordinates);
    FilterSameOn(places, Ranking.HasKey(key, Ranking.Infinity), LacksCoordinates);
  }

  /** `slice(0, n)` after the optional sort: `min(n, |places|)` places, none more often than in
      `places`; without a reference point, the first `n` places as they were. */
  lemma RankedPrefixBounded(places: seq<Place>, ref: Option<RefPoint>, distance: DistanceFn, n: nat)
    ensures var r := Take(Ranked(places, ref, distance), n);
      && |r| == Min(n, |places|)
      && multiset(r) <= multiset(places)
      && (ref.None? ==> r == Take(places, n))
  {
    var ranked := Ranked(places, ref, distance);
    var r := Take(ranked, n);
    RankedPermutes(places, ref, distance);
    assert ranked == r + ranked[|r|..];
    assert multiset(ranked) == multiset(r) + multiset(ranked[|r|..]);
  }

  /** The ordering facts survive `slice(0, n)`: places with coordinates nearest first and
      before those without, and those without in their input order. */
  lemma RankedPrefixOrdered(places: seq<Place>, ref: RefPoint, distance: DistanceFn, n: nat)
    ensures var r := Take(Ranked(places, Some(ref), distance), n);
      && (forall i, j :: 0 <= i < j < |r| && HasCoordinates(r[i]) && HasCoordinates(r[j]) ==>
            Km(ref, r[i], distance) <= Km(ref, r[j], distance))
      && (forall i, j :: 0 <= i < j < |r| && HasCoordinates(r[j]) ==> HasCoordinates(r[i]))
    ensures var kept := Filter(Take(Ranked(places, Some(ref), distance), n), LacksCoordinates);
      |kept| <= |Filter(places, LacksCoordinates)| && kept == Filter(places, LacksCoordinates)[..|kept|]
  {
    RankedNearestFirst(places, ref, distance);
    RankedCoordinatelessStable(places, ref, distance);
    FilterOfTake(Ranked(places, Some(ref), distance), n, LacksCoordinates);
  }

  /** `places.sort(...)` on the fetched array when both query values are present. */
  method RankInPlace(a: array<Place>, ref: Option<RefPoint>, distance: DistanceFn)
    modifies a
    ensures a[..] == Ranked(old(a[..]), ref, distance)
  {
    if ref.Some? {
      Ranking.SortInPlace(a, DistanceKey(ref.value, distance));
    }
  }
}
