/** The read-only routes of Backend/routes/places.js: `GET /common`, `GET /recommended` and
    the location/tag search `GET /search`. The catalog is what `Place.find()` returns, in its
    natural order, and `limit(n)` keeps the first `n` matches of that order. */
module Places {
  import opened Wrappers
  import opened Seqs
  import opened Catalog
  import Strings
  import Users

  /** The names `/common` asks for. */
  const POPULAR: seq<string> := ["Marina Beach", "Meenakshi Temple", "Ooty Hill Station", "Rameshwaram Temple"]
  const COMMON_LIMIT: nat := 4
  /** `/recommended` fetches at most this many candidates ... */
  const CANDIDATE_LIMIT: nat := 8
  /** ... and answers with at most this many of them. */
  const RECOMMENDED_LIMIT: nat := 4

  function IsPopular(p: Place): bool {
    p.name in POPULAR
  }

  /** `Place.find({ name: { $in: popular } }).limit(4)`. */
  function Common(catalog: seq<Place>): (r: seq<Place>)
    ensures |r| <= COMMON_LIMIT
    ensures forall i :: 0 <= i < |r| ==> r[i].name in POPULAR
  {
    Take(Filter(catalog, IsPopular), COMMON_LIMIT)
  }

  /** At most four places, each with a popular name, and they are the first popular places
      of the catalog. */
  lemma CommonExact(catalog: seq<Place>)
    ensures var r := Common(catalog);
      && |r| == Min(COMMON_LIMIT, |Filter(catalog, IsPopular)|)
      && (forall i :: 0 <= i < |r| ==> r[i].name in POPULAR && r[i] in catalog)
      && r == Filter(catalog, IsPopular)[..|r|]
      && (|r| < COMMON_LIMIT ==> forall i :: 0 <= i < |catalog| && IsPopular(catalog[i]) ==> catalog[i] in r)
  {
    var all := Filter(catalog, IsPopular);
    var r := Common(catalog);
    forall i | 0 <= i < |r| ensures r[i].name in POPULAR && r[i] in catalog {
      assert r[i] == all[i];
    }
  }

  /** `{ $in: wanted }` on the array field `tags`: some tag of the place is wanted. */
  predicate SharesTag(tags: seq<string>, wanted: seq<string>) {
    exists i :: 0 <= i < |tags| && tags[i] in wanted
  }

  /** The `/recommended` query: no condition at all when the user has no interests,
      otherwise `{ tags: { $in: user.interests } }`. */
  function InterestFilter(interests: seq<string>): (f: Place -> bool)
    ensures |interests| == 0 ==> forall p :: f(p)
    ensures |interests| > 0 ==> forall p :: f(p) <==> SharesTag(p.tags, interests)
  {
    (p: Place) => |interests| == 0 || SharesTag(p.tags, interests)
  }

  /** `Place.find(query).limit(8)`. */
  function Candidates(catalog: seq<Place>, interests: seq<string>): (c: seq<Place>)
    ensures |c| <= CANDIDATE_LIMIT
    ensures forall i :: 0 <= i < |c| ==> c[i] in catalog
  {
    Take(Filter(catalog, InterestFilter(interests)), CANDIDATE_LIMIT)
  }

  /** No interests means no filter: the first eight places of the catalog. Otherwise every
      candidate shares a tag with the interests. Either way the candidates are the first
      eight matching places in catalog order, and every matching place is fetched when
      fewer than eight match. */
  lemma CandidatesFilter(catalog: seq<Place>, interests: seq<string>)
    ensures var c := Candidates(catalog, interests);
      && |c| <= CANDIDATE_LIMIT
      && (|interests| == 0 ==> c == Take(catalog, CANDIDATE_LIMIT))
      && (forall i :: 0 <= i < |c| ==> c[i] in catalog && (|interests| > 0 ==> SharesTag(c[i].tags, interests)))
    ensures var c := Candidates(catalog, interests); var matching := Filter(catalog, InterestFilter(interests));
      && |c| == Min(CANDIDATE_LIMIT, |matching|)
      && c == matching[..|c|]
    ensures var c := Candidates(catalog, interests);
      |c| < CANDIDATE_LIMIT ==>
        forall i :: 0 <= i < |catalog| && (|interests| == 0 || SharesTag(catalog[i].tags, interests)) ==> catalog[i] in c
  {
    var f := InterestFilter(interests);
    var all := Filter(catalog, f);
    var c := Candidates(catalog, interests);
    if |interests| == 0 {
      FilterKeepsAll(catalog, f);
    }
    CandidatesShareTags(catalog, interests);
    if |c| < CANDIDATE_LIMIT {
      assert c == all;
      forall i | 0 <= i < |catalog| && (|interests| == 0 || SharesTag(catalog[i].tags, interests))
        ensures catalog[i] in c
      {
        assert f(catalog[i]);
      }
    }
  }

  /** Every candidate is a catalog place that shares a tag with the interests, if there are any. */
  lemma CandidatesShareTags(catalog: seq<Place>, interests: seq<string>)
    ensures var c := Candidates(catalog, interests);
      forall i :: 0 <= i < |c| ==> c[i] in catalog && (|interests| > 0 ==> SharesTag(c[i].tags, interests))
  {
    var f := InterestFilter(interests);
    var all := Filter(catalog, f);
    var c := Candidates(catalog, interests);
    forall i | 0 <= i < |c| ensures |interests| > 0 ==> SharesTag(c[i].tags, interests) {
      assert c[i] == all[i];
      assert f(all[i]);
    }
  }

  /** The response of `/recommended`. A missing user makes `user.interests` throw, which the
      handler's catch turns into a 500. */
  datatype RecommendedOutcome = Recommended(places: seq<Place>) | ServerError {
    function Status(): int {
      if Recommended? then 200 else 500
    }
  }

  function RecommendedResult(users: seq<Users.User>, userId: Users.UserId, catalog: seq<Place>,
                             lat: Option<string>, lon: Option<string>,
                             parseFloat: string -> real, distance: DistanceFn): (r: RecommendedOutcome)
    ensures r.ServerError? <==> Users.FindById(users, userId).None?
    ensures r.Recommended? ==> |r.places| <= RECOMMENDED_LIMIT
  {
    match Users.FindById(users, userId)
    case None => ServerError
    case Some(i) =>
      var candidates := Candidates(catalog, users[i].interests);
      Recommended(Take(Ranked(candidates, RefPointOf(lat, lon, parseFloat), distance), RECOMMENDED_LIMIT))
  }

  /** The handler: looks the user up, fetches the candidates into an array, sorts it in place
      when both query values are present, and slices off the first four. */
  method Recommend(store: Users.UserStore, userId: Users.UserId, catalog: seq<Place>,
                   lat: Option<string>, lon: Option<string>,
                   parseFloat: string -> real, distance: DistanceFn) returns (r: RecommendedOutcome)
    ensures r == RecommendedResult(store.users, userId, catalog, lat, lon, parseFloat, distance)
  {
    var found := Users.FindById(store.users, userId);
    if found.None? {
      return ServerError;
    }
    var candidates := Candidates(catalog, store.users[found.value].interests);
    var places := new Place[|candidates|](i requires 0 <= i < |candidates| => candidates[i]);
    assert places[..] == candidates;
    RankInPlace(places, RefPointOf(lat, lon, parseFloat), distance);
    r := Recommended(places[..Min(RECOMMENDED_LIMIT, places.Length)]);
  }

  /** A 500 exactly when the user is missing. Otherwise at most four places, drawn from the
      (at most eight) candidates with no place repeated more often than among them; without
      both query values they are the first four candidates. */
  lemma RecommendedBounded(users: seq<Users.User>, userId: Users.UserId, catalog: seq<Place>,
                           lat: Option<string>, lon: Option<string>,
                           parseFloat: string -> real, distance: DistanceFn)
    ensures var r := RecommendedResult(users, userId, catalog, lat, lon, parseFloat, distance);
      && (r.ServerError? <==> Users.FindById(users, userId).None?)
      && (r.Status() == 500 <==> Users.FindById(users, userId).None?)
    ensures var r := RecommendedResult(users, userId, catalog, lat, lon, parseFloat, distance);
      r.Recommended? ==>
        var c := Candidates(catalog, users[Users.FindById(users, userId).value].interests);
        && |r.places| == Min(RECOMMENDED_LIMIT, |c|)
        && multiset(r.places) <= multiset(c)
        && (!(Present(lat) && Present(lon)) ==> r.places == Take(c, RECOMMENDED_LIMIT))
  {
    var r := RecommendedResult(users, userId, catalog, lat, lon, parseFloat, distance);
    if r.Recommended? {
      var c := Candidates(catalog, users[Users.FindById(users, userId).value].interests);
      RankedPrefixBounded(c, RefPointOf(lat, lon, parseFloat), distance, RECOMMENDED_LIMIT);
    }
  }

  /** Every recommended place is a catalog place that passes the interest filter. */
  lemma RecommendedFiltered(users: seq<Users.User>, userId: Users.UserId, catalog: seq<Place>,
                            lat: Option<string>, lon: Option<string>,
                            parseFloat: string -> real, distance: DistanceFn)
    requires Users.FindById(users, userId).Some?
    ensures var interests := users[Users.FindById(users, userId).value].interests;
      var r := RecommendedResult(users, userId, catalog, lat, lon, parseFloat, distance).places;
      forall i :: 0 <= i < |r| ==> r[i] in catalog && (|interests| > 0 ==> SharesTag(r[i].tags, interests))
  {
    var interests := users[Users.FindById(users, userId).value].interests;
    var c := Candidates(catalog, interests);
    var r := RecommendedResult(users, userId, catalog, lat, lon, parseFloat, distance).places;
    CandidatesShareTags(catalog, interests);
    RankedPrefixBounded(c, RefPointOf(lat, lon, parseFloat), distance, RECOMMENDED_LIMIT);
    forall i | 0 <= i < |r| ensures r[i] in c {
      assert r[i] in multiset(r);
    }
  }

  /** With both query values present, the places with coordinates come nearest first and
      before those without, which keep their candidate order. */
  lemma RecommendedRanked(users: seq<Users.User>, userId: Users.UserId, catalog: seq<Place>,
                          lat: string, lon: string, parseFloat: string -> real, distance: DistanceFn)
    requires lat != "" && lon != ""
    requires Users.FindById(users, userId).Some?
    ensures var ref := RefPoint(parseFloat(lat), parseFloat(lon));
      var r := RecommendedResult(users, userId, catalog, Some(lat), Some(lon), parseFloat, distance).places;
      && (forall i, j :: 0 <= i < j < |r| && HasCoordinates(r[i]) && HasCoordinates(r[j]) ==>
            Km(ref, r[i], distance) <= Km(ref, r[j], distance))
      && (forall i, j :: 0 <= i < j < |r| && HasCoordinates(r[j]) ==> HasCoordinates(r[i]))
    ensures var interests := users[Users.FindById(users, userId).value].interests;
      var r := RecommendedResult(users, userId, catalog, Some(lat), Some(lon), parseFloat, distance).places;
      var kept := Filter(r, LacksCoordinates);
      var c := Candidates(catalog, interests);
      |kept| <= |Filter(c, LacksCoordinates)| && kept == Filter(c, LacksCoordinates)[..|kept|]
  {
    var interests := users[Users.FindById(users, userId).value].interests;
    RankedPrefixOrdered(Candidates(catalog, interests), RefPoint(parseFloat(lat), parseFloat(lon)), distance, RECOMMENDED_LIMIT);
  }

  /** `tags.split(',').map((tag) => tag.trim())`. */
  function ParseTags(tags: string): (r: seq<string>)
    ensures |r| == Strings.Count(tags, ',') + 1
  {
    var pieces := Strings.Split(tags, ',');
    seq(|pieces|, i requires 0 <= i < |pieces| => Strings.Trim(pieces[i]))
  }

  /** The tag list is the trimmed comma-separated pieces of the query: there are pieces
      without commas that join back into the query, and each tag is one of them trimmed, so
      no tag holds a comma or starts or ends with whitespace. */
  lemma ParseTagsPieces(tags: string)
    ensures var r := ParseTags(tags);
      exists pieces: seq<string> {:trigger Strings.Join(pieces, ',')} ::
        && |pieces| == |r| && |pieces| > 0
        && Strings.Join(pieces, ',') == tags
        && (forall i :: 0 <= i < |r| ==> ',' !in pieces[i] && r[i] == Strings.Trim(pieces[i]))
    ensures var r := ParseTags(tags);
      forall i :: 0 <= i < |r| ==> ',' !in r[i] && Strings.Trim(r[i]) == r[i]
  {
    var pieces := Strings.Split(tags, ',');
    var r := ParseTags(tags);
    Strings.JoinSplit(tags, ',');
    forall i | 0 <= i < |r| ensures ',' !in r[i] && Strings.Trim(r[i]) == r[i] {
      Strings.TrimOmits(pieces[i], ',');
      Strings.TrimIdempotent(pieces[i]);
    }
  }

  /** The `/search` condition: `location` (when given) must occur in the place's location,
      ignoring case; `tags` (when given) must share a tag with the parsed tag list. */
  predicate SearchMatches(p: Place, location: Option<string>, tags: Option<string>): (b: bool)
    ensures !Present(location) && !Present(tags) ==> b
    ensures Present(location) && !Strings.ContainsIgnoreCase(p.location, location.value) ==> !b
    ensures Present(tags) && p.tags == [] ==> !b
    ensures Present(tags) && !SharesTag(p.tags, ParseTags(tags.value)) ==> !b
    ensures (&& (!Present(location) || Strings.ContainsIgnoreCase(p.location, location.value))
             && (!Present(tags) || SharesTag(p.tags, ParseTags(tags.value)))) ==> b
  {
    && (Present(location) ==> Strings.ContainsIgnoreCase(p.location, location.value))
    && (Present(tags) ==> SharesTag(p.tags, ParseTags(tags.value)))
  }

  function Matcher(location: Option<string>, tags: Option<string>): Place -> bool {
    p => SearchMatches(p, location, tags)
  }

  /** `Place.find(query)` with the query built from `location` and `tags`. */
  function SearchByLocationAndTags(catalog: seq<Place>, location: Option<string>, tags: Option<string>): (r: seq<Place>)
    ensures |r| <= |catalog|
    ensures forall i :: 0 <= i < |r| ==> r[i] in catalog
  {
    Filter(catalog, Matcher(location, tags))
  }

  /** Exactly the places that meet every given condition, in catalog order; with neither
      parameter given, the whole catalog. */
  lemma SearchExact(catalog: seq<Place>, location: Option<string>, tags: Option<string>)
    ensures var r := SearchByLocationAndTags(catalog, location, tags);
      && (forall i :: 0 <= i < |r| ==> r[i] in catalog && SearchMatches(r[i], location, tags))
      && (forall i :: 0 <= i < |catalog| && SearchMatches(catalog[i], location, tags) ==> catalog[i] in r)
    ensures forall a: seq<Place>, b: seq<Place> {:trigger SearchByLocationAndTags(a + b, location, tags)} ::
      SearchByLocationAndTags(a + b, location, tags)
        == SearchByLocationAndTags(a, location, tags) + SearchByLocationAndTags(b, location, tags)
    ensures !Present(location) && !Present(tags) ==> SearchByLocationAndTags(catalog, location, tags) == catalog
  {
    var f := Matcher(location, tags);
    var r := SearchByLocationAndTags(catalog, location, tags);
    forall i | 0 <= i < |r| ensures SearchMatches(r[i], location, tags) {
      assert f(r[i]);
    }
    forall i | 0 <= i < |catalog| && SearchMatches(catalog[i], location, tags) ensures catalog[i] in r {
      assert f(catalog[i]);
    }
    forall a: seq<Place>, b: seq<Place>
      ensures SearchByLocationAndTags(a + b, location, tags)
        == SearchByLocationAndTags(a, location, tags) + SearchByLocationAndTags(b, location, tags)
    {
      FilterAppend(a, b, f);
    }
    if !Present(location) && !Present(tags) {
      FilterKeepsAll(catalog, f);
    }
  }
}
