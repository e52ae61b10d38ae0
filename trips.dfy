/** The duplicate check and append shared by `PUT /trips/upcoming` and `PUT /trips/completed`
    (written out twice, in `routes/places.js` and `models/Place.js`). */
module Trips {
  import opened Wrappers
  import opened Seqs
  import Catalog

  type PlaceId = Catalog.PlaceId

  datatype TripList = Upcoming | Completed

  /** 400 'Place already in upcoming trips' / 'Place already in completed trips'. */
  datatype TripError = AlreadyInTrips

  /** `list.some((trip) => trip.place.toString() === placeId)` rejects; otherwise
      `list.push({ place: placeId })`. */
  function AppendTrip(trips: seq<PlaceId>, placeId: PlaceId): (r: Result<seq<PlaceId>, TripError>)
    ensures r.Failure? <==> placeId in trips
    ensures r.Success? ==>
      |r.value| == |trips| + 1 && r.value[..|trips|] == trips && r.value[|trips|] == placeId
  {
    if placeId in trips then Failure(AlreadyInTrips) else Success(trips + [placeId])
  }

  /** A duplicate-free trip list stays duplicate-free. */
  lemma AppendTripKeepsNoDuplicates(trips: seq<PlaceId>, placeId: PlaceId)
    requires NoDuplicates(trips)
    ensures AppendTrip(trips, placeId).Success? ==> NoDuplicates(AppendTrip(trips, placeId).value)
  {
  }

  /** Adding the same place twice: the second add is rejected. */
  lemma AppendTripTwiceRejected(trips: seq<PlaceId>, placeId: PlaceId)
    requires AppendTrip(trips, placeId).Success?
    ensures AppendTrip(AppendTrip(trips, placeId).value, placeId) == Failure(AlreadyInTrips)
  {
    var r := AppendTrip(trips, placeId).value;
    assert r[|trips|] == placeId;
  }
}
