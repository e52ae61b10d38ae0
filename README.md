# TN-Explorer backend rules in Dafny

This project models the deterministic rules inside the Express handlers of the TN-Explorer
backend, with the Mongo collections written as sequences. It covers:

- **Interest validation** in `PUT /update-interests` and `PUT /interests`:
  - a non-array body field is rejected;
  - any entry outside the endpoint's own whitelist is rejected and reported;
  - otherwise the list is stored exactly as sent.
- **Registration and login.**
  - `POST /register` refuses an email already on file. This is shown to be insertion into a map keyed by email.
  - `POST /login` gives the same answer for an unknown email and for a wrong password.
- **Trip lists.** `PUT /trips/upcoming` and `PUT /trips/completed` reject a place already on the list and otherwise append it at the end.
- **Distance ranking.**
  - `GET /nearby` and `GET /recommended` sort places with the comparator `distA - distB`.
  - A place whose `lat` or `lon` is falsy (missing or 0) gets distance Infinity.
  - `Array.prototype.sort` is stable (section 23.1.3.30 of ECMA-262) and reads the NaN of `Infinity - Infinity` as +0.
  - The result is then cut to 6 places, or to 4 of at most 8 candidates.
- **Query shaping.**
  - `/common` fetches the popular names.
  - `/recommended` filters by the user's interests.
  - `/search` on `location` and `tags` splits the tag list on `,` and trims each piece.
  - `/search` on `query` treats a missing query as the empty pattern.

Modules, one file each:

| Module | What it holds |
|---|---|
| `Wrappers` | `Option` and `Result` |
| `Seqs` | `Take` (for `slice`/`limit`), `Filter`, `IndexOf` (for `findOne`/`findById`) |
| `Strings` | `trim`, `split`, and case-insensitive literal matching |
| `Ranking` | the comparator; the stable sort as a function; the in-place array sort proved equal to it |
| `Catalog` | places, coordinate truthiness, the distance key, and the ranked candidate list |
| `Interests` | the two whitelists and validation |
| `Trips` | the duplicate-rejecting append |
| `Users` | the user collection as class `UserStore`: register, interests update, trip add, and login |
| `Nearby` | `/nearby` and the name search of `Backend/models/Place.js` |
| `Places` | `/common`, `/recommended` and the location/tag search of `Backend/routes/places.js` |

Three things are stated as parameters of the model rather than defined:

- the great-circle distance, `(lat1, lon1, lat2, lon2) -> km`;
- `parseFloat`;
- bcrypt's `matchPassword`.

The model follows the code, not the intended design, in two places:

- The two whitelists stay different ('Sports' on one endpoint, 'Sport' on the other), as written.
- A missing user in `/recommended` gives 500, not 404. The handler reads `user.interests` without a null check, and the catch turns the resulting TypeError into 500.

## Model

| member | source | states |
|---|---|---|
| Ranking.CompareMeaning | Backend/models/Place.js:25-27 | the sign of `distA - distB`: zero exactly for equal keys, every finite distance below Infinity, finite distances ordered by km |
| Ranking.CompareIsConsistent | Backend/models/Place.js:24-28 | the comparator is antisymmetric and transitive, so the stable sort has exactly one result |
| Ranking.Compare | Backend/models/Place.js:25-27 | the sign the sort reads from `distA - distB`: -1, 0 or +1, and 0 exactly for equal keys (two Infinities included, where the subtraction gives NaN) |
| Ranking.Insert | Backend/models/Place.js:24-28 | one insertion step of the stable sort: the list grows by exactly one element (InsertInPlace and the StableSort lemmas give the rest) |
| Ranking.StableSort | Backend/models/Place.js:24-28 | the sort keeps the length of the list; StableSortPermutes, StableSortSorted and StableSortStable state what it does |
| Ranking.StableSortPermutes | Backend/models/Place.js:24-28 | sorting neither loses nor duplicates a place (multiset equality) |
| Ranking.StableSortSorted | Backend/models/Place.js:24-28 | the sorted sequence is ordered by the comparator |
| Ranking.StableSortStable | Backend/models/Place.js:24-28 | elements sharing a key keep their input order |
| Ranking.InsertInPlace | Backend/models/Place.js:24-28 | one in-place step: the suffix becomes the stable insertion of its first element, and the prefix is unchanged |
| Ranking.SortInPlace | Backend/routes/places.js:44-50 | `places.sort(cmp)` on the array leaves exactly the stable sort of the old contents |
| Catalog.RefPointOf | Backend/models/Place.js:21-23 | a reference point exists exactly when both `lat` and `lon` query values are truthy (present and non-empty) |
| Catalog.Truthy | Backend/models/Place.js:25-26 | a coordinate is falsy when missing and when 0, and truthy for every other number |
| Catalog.HasCoordinates | Backend/models/Place.js:25-26 | `a.lat && a.lon`: true exactly when both coordinates are present and non-zero, so false when either is 0 |
| Catalog.Present | Backend/models/Place.js:23 | a query value is falsy when absent or empty, and the string "0" is truthy |
| Catalog.DistanceKey | Backend/models/Place.js:25-26 | `distA`: Infinity exactly for a place without coordinates, otherwise the distance from the reference point |
| Catalog.Ranked | Backend/models/Place.js:23-29 | the optionally sorted list has the fetched list's length, and is that list unchanged when `lat` or `lon` is missing |
| Catalog.RankedPermutes | Backend/models/Place.js:23-29 | the ranked list is a permutation of the fetched list, and it is that list unchanged when `lat` or `lon` is missing |
| Catalog.RankedNearestFirst | Backend/models/Place.js:24-28 | places with coordinates come first, in non-decreasing distance |
| Catalog.RankedCoordinatelessStable | Backend/models/Place.js:25-27 | places with a falsy `lat` or `lon` keep their relative input order |
| Catalog.RankedPrefixBounded | Backend/models/Place.js:23-30 | `slice(0, n)` of the ranked list has `min(n, length)` places drawn from the input; without a reference point they are its first `n` |
| Catalog.RankedPrefixOrdered | Backend/models/Place.js:24-30 | the ordering facts survive `slice(0, n)`: nearest first, coordinate-less last and in input order |
| Catalog.RankInPlace | Backend/models/Place.js:23-29 | the in-place sort of the fetched array equals the ranked list |
| Nearby.Nearby | Backend/models/Place.js:19-34 | the handler's array sort and slice return the first six of the ranked catalog |
| Nearby.NearbyResult | Backend/models/Place.js:22-30 | the response is the first `min(6, catalog size)` places of the ranked catalog |
| Nearby.NearbyBounded | Backend/models/Place.js:22-30 | at most six places, none more often than in the catalog; the first six in catalog order when `lat` or `lon` is missing |
| Nearby.NearbyNearestFirst | Backend/models/Place.js:24-30 | with both query values: nearest first, coordinate-less places after every place with coordinates and in catalog order |
| Nearby.NamePattern | Backend/models/Place.js:40 | the query itself when it is present and non-empty; otherwise the fallback `''`, the empty pattern |
| Nearby.SearchByName | Backend/models/Place.js:39-41 | the name search returns catalog places only, never more than the catalog holds |
| Nearby.SearchByNameExact | Backend/models/Place.js:36-46 | exactly the places whose name contains the query ignoring case, in catalog order |
| Nearby.EmptyQueryMatchesAll | Backend/models/Place.js:40 | a missing or empty `query` returns every place |
| Strings.Trim | Backend/routes/places.js:67 | the trimmed string is no longer than the input and neither starts nor ends with whitespace |
| Strings.TrimRemovesOnlyWhitespace | Backend/routes/places.js:67 | `trim` returns the slice of the input between its leading and trailing whitespace |
| Strings.TrimIdempotent | Backend/routes/places.js:67 | trimming a trimmed tag changes nothing |
| Strings.Split | Backend/routes/places.js:67 | `split(',')` gives one piece more than there are commas, and no piece contains a comma |
| Strings.JoinSplit | Backend/routes/places.js:67 | joining the split pieces with commas gives the query string back |
| Strings.SplitJoin | Backend/routes/places.js:67 | comma-free pieces are recovered by splitting their join |
| Strings.EmptyPatternMatches | Backend/models/Place.js:40 | the empty pattern matches every name |
| Strings.VerbatimOccurrenceMatches | Backend/routes/places.js:64 | a pattern occurring verbatim in the field matches |
| Strings.CaseIgnored | Backend/routes/places.js:64 | with `$options: 'i'`, folding the case of the field or of the pattern does not change the match |
| Strings.ContainsIgnoreCase | Backend/routes/places.js:64 | a case-insensitive literal match needs a pattern no longer than the field |
| Strings.ContainsIgnoreCaseMeaning | Backend/routes/places.js:64 | `{ $regex: location, $options: 'i' }` matches exactly when, from some position of the field on, every pattern character equals the field's character after case folding |
| Strings.FoldedOccurrence | Backend/routes/places.js:64 | at one position of the field, the folded pattern occurs exactly when each pattern character agrees with the field's after folding |
| Strings.IsWhitespace | Backend/routes/places.js:67 | the characters `trim` removes; the comma separator is never one of them |
| Interests.InvalidEntriesExact | Backend/routes/auth.js:102 | the reported entries are exactly the off-whitelist entries, in input order, repeats kept |
| Interests.InvalidEntriesEmptyIff | Backend/routes/auth.js:102-103 | nothing is reported exactly when every entry is a whitelisted string |
| Interests.Allowed | Backend/routes/auth.js:102 | `validInterests.includes(interest)`: a non-string never passes, and a string passes exactly when it is on the whitelist |
| Interests.InvalidEntries | Backend/routes/auth.js:144 | the reported entries are input entries that fail the whitelist, no more of them than there are inputs |
| Interests.Validate | Backend/routes/auth.js:91-106 | non-array rejected; accepted iff every entry is whitelisted; accepted lists stored verbatim; otherwise the invalid entries are reported |
| Interests.EmptyArrayAccepted | Backend/routes/auth.js:102-112 | an empty array is accepted and clears the interests |
| Interests.ValidateOne | Backend/routes/auth.js:102-106 | a one-entry array is accepted exactly when its entry is a whitelisted string |
| Interests.OnlyUpdateInterestsAccepts | Backend/routes/auth.js:96-143 | 'Sports', 'Cities', 'Music', 'Shopping', 'Nightlife' and 'Architecture' pass `/update-interests` but fail `/interests` |
| Interests.SportListedOnlyOnInterestsPage | Backend/routes/auth.js:96-143 | 'Sport' is on the `/interests` whitelist only |
| Interests.OnlyInterestsPageAcceptsSport | Backend/routes/auth.js:96-143 | 'Sport' passes `/interests` but fails `/update-interests` |
| Trips.AppendTrip | Backend/routes/places.js:83-86 | rejected exactly when the place is already listed; otherwise the old list with the place appended at the end |
| Trips.AppendTripKeepsNoDuplicates | Backend/routes/places.js:78-110 | a duplicate-free trip list stays duplicate-free |
| Trips.AppendTripTwiceRejected | Backend/routes/places.js:83-86 | adding the same place a second time is rejected |
| Users.User.WithTrips | Backend/routes/places.js:86-103 | replacing one trip list leaves every other field alone: the other list, id, name, email, password, date of birth and interests |
| Users.NewUser | Backend/routes/auth.js:18-23 | a new user carries the given name, email, password and date of birth, and starts with no interests and no trips |
| Users.FindByEmail | Backend/routes/auth.js:13 | `findOne({ email })`: the first user with that email, and none exactly when no user has it |
| Users.FindById | Backend/routes/auth.js:108 | `findById`: the first user with that id, and none exactly when no user has it |
| Users.EmailIndexAgrees | Backend/routes/auth.js:13-16 | under unique emails, `findOne({ email })` finds a user exactly when the email is a key of the email map, and finds that key's user |
| Users.Login | Backend/routes/auth.js:43-70 | login succeeds exactly when the email is found and the password matches that user's hash, and returns that user's id |
| Users.LoginFailuresAlike | Backend/routes/auth.js:47-55 | an unknown email and a wrong password give the same 400 'Invalid credentials' |
| Users.UserStore.Register | Backend/routes/auth.js:9-40 | 400 exactly when the email is already on file, and then no user is added; otherwise 201 and one new user with no interests and no trips is appended, the email map gains exactly that key, and the store's invariant holds |
| Users.UserStore.UpdateInterests | Backend/routes/auth.js:86-161 | for `/update-interests` and `/interests`, each with its own whitelist: 400 exactly when validation fails, and then nothing changes; 404 only after validation succeeds; otherwise only that user's interests become the list as sent |
| Users.UserStore.AddTrip | Backend/routes/places.js:78-110 | 404 exactly for an unknown user; 400 exactly when the place is already on that list, and then nothing changes; otherwise the place is appended to the chosen list only; trip lists stay duplicate-free (the same handlers are duplicated in `Backend/models/Place.js:48-80`) |
| Places.CommonExact | Backend/routes/places.js:21-29 | exactly `min(4, number of popular places)` places, all with a popular name, and the first popular places in catalog order; all of them when fewer than four |
| Places.Common | Backend/routes/places.js:23-24 | at most four places, each with one of the four popular names |
| Places.InterestFilter | Backend/routes/places.js:37-40 | no condition when the user has no interests; otherwise a place passes exactly when it shares a tag with them |
| Places.Candidates | Backend/routes/places.js:42 | at most eight candidates, all from the catalog |
| Places.CandidatesShareTags | Backend/routes/places.js:37-42 | every candidate is a catalog place sharing a tag with the interests, when there are any |
| Places.CandidatesFilter | Backend/routes/places.js:37-42 | the candidates are the first `min(8, matches)` matching places in catalog order, so every match is fetched when fewer than eight match; no interests means the first eight places; otherwise every candidate shares a tag with the interests |
| Places.Recommend | Backend/routes/places.js:32-56 | the handler's lookup, array sort and slice produce the specified outcome |
| Places.RecommendedResult | Backend/routes/places.js:32-56 | a server error exactly when the user is missing, otherwise at most four places |
| Places.RecommendedBounded | Backend/routes/places.js:34-52 | status 500 exactly when the user is missing; otherwise at most four places drawn from the candidates; the first four candidates when `lat` or `lon` is missing |
| Places.RecommendedFiltered | Backend/routes/places.js:37-52 | every recommended place is a catalog place that shares a tag with the user's interests, when there are any |
| Places.RecommendedRanked | Backend/routes/places.js:44-52 | with both query values: nearest first, and coordinate-less places after every place with coordinates, in candidate order |
| Places.ParseTags | Backend/routes/places.js:67 | there is one tag more than there are commas in the query |
| Places.ParseTagsPieces | Backend/routes/places.js:67 | the tags are the trimmed comma-free pieces that join back into the query; no tag holds a comma or outer whitespace |
| Places.SearchMatches | Backend/routes/places.js:61-69 | a place matches exactly when it meets every given condition: its location contains a given `location` ignoring case, and it shares a tag with the parsed given `tags`; with neither parameter every place matches |
| Places.SearchByLocationAndTags | Backend/routes/places.js:61-70 | the search returns catalog places only, never more than the catalog holds |
| Places.SearchExact | Backend/routes/places.js:59-75 | exactly the places meeting every given condition, in catalog order; the whole catalog with neither parameter |

## Left out

- The haversine formula in `getDistance` (`Backend/routes/places.js:8-18`, `Backend/models/Place.js:7-17`) is floating-point trigonometry. It is a function parameter of the model.
- `parseFloat` is a function parameter.
- NaN coordinates, and NaN from `parseFloat` of a non-numeric query, are not modelled. Only the NaN of `Infinity - Infinity` is modelled, read as +0.
- A stored coordinate is `Option<real>`; falsy means missing or 0. Other JavaScript values in those fields are not modelled.
- `query`, `location`, `tags`, `lat` and `lon` are single strings or absent. A repeated query parameter, which Express turns into an array, is not modelled.
- `Backend/models/Place.js` as given is itself an Express router. It loads `require('../models/Place')` at line 3, which resolves to itself, and exports the router at line 82. So the `Place` it and `Backend/routes/places.js` query is not a Mongoose model; this is read from the source text, not observed. The catalog schema is not part of this model. `Place.find(...)` and `.limit(n)` are taken to be the query on the place catalog, and the 500 answers that calling `find` on a router would give are not modelled.
- Mongoose (`find`, `limit`, `findOne`, `findById`, `findByIdAndUpdate`, `save`, `populate`) becomes sequences. Results come back in the collection's natural order, modelled as the sequence order.
- `$regex` patterns are matched as literal substrings, and case is folded for ASCII letters only. Regular-expression metacharacters and non-ASCII case folding are not modelled.
- ObjectId casting and `trip.place.toString()` are not modelled: place ids are compared as canonical strings.
- The populated trip documents returned after `save` are not modelled. AddTrip returns the updated id list.
- User schema validators and hooks (`Backend/models/User.js` is not part of this model): password hashing and the stored defaults. New users are given empty interest and trip lists.
- bcrypt's `matchPassword` is a predicate parameter.
- JWT signing, the `protect` middleware and `GET /me` (which only echoes the stored user) are left out.
- Express routing, JSON response shapes, console logging, async/await and the 500 responses for storage failures are left out. The one 500 the handler logic itself causes (a missing user in `/recommended`) is modelled.
- Users.UserStore.Register: document ids come from a counter (`nextId`) instead of ObjectId generation.
- Users.UserStore.Register: the returned JWT and the response fields are not modelled.
