/** The users collection and the handlers that change it: `POST /register`, `POST /login`,
    `PUT /update-interests`, `PUT /interests`, and the trip adds. The collection is a sequence
    in insertion order, so `findOne` and `findById` return the first matching document. */
module Users {
  import opened Wrappers
  import opened Seqs
  import Interests
  import Trips

  type UserId = nat
  type PlaceId = Trips.PlaceId

  datatype User = User(
    id: UserId,
    name: string,
    email: string,
    password: string,
    dateOfBirth: string,
    interests: seq<string>,
    upcomingTrips: seq<PlaceId>,
    completedTrips: seq<PlaceId>)
  {
    function TripsOf(list: Trips.TripList): seq<PlaceId> {
      match list
      case Upcoming => upcomingTrips
      case Completed => completedTrips
    }

    /** The same user with one trip list replaced and the other left alone. */
    function WithTrips(list: Trips.TripList, trips: seq<PlaceId>): (u: User)
      ensures u.TripsOf(list) == trips
      ensures forall other :: other != list ==> u.TripsOf(other) == TripsOf(other)
      ensures u.id == id && u.email == email && u.interests == interests
      ensures u.name == name && u.password == password && u.dateOfBirth == dateOfBirth
    {
      match list
      case Upcoming => this.(upcomingTrips := trips)
      case Completed => this.(completedTrips := trips)
    }
  }

  /** A freshly registered user: no interests and no trips yet. */
  function NewUser(id: UserId, name: string, email: string, password: string, dateOfBirth: string): (u: User)
    ensures u.interests == [] && u.upcomingTrips == [] && u.completedTrips == []
    ensures u.id == id && u.name == name && u.email == email && u.password == password && u.dateOfBirth == dateOfBirth
  {
    User(id, name, email, password, dateOfBirth, [], [], [])
  }

  function EmailIs(email: string): User -> bool {
    (u: User) => u.email == email
  }

  function IdIs(id: UserId): User -> bool {
    (u: User) => u.id == id
  }

  /** `User.findOne({ email })`. */
  function FindByEmail(users: seq<User>, email: string): (r: Option<nat>)
    ensures r.Some? ==> r.value < |users| && users[r.value].email == email
    ensures r.Some? ==> forall j :: 0 <= j < r.value ==> users[j].email != email
    ensures r.None? <==> forall j :: 0 <= j < |users| ==> users[j].email != email
  {
    IndexOf(users, EmailIs(email))
  }

  /** `User.findById(id)`. */
  function FindById(users: seq<User>, id: UserId): (r: Option<nat>)
    ensures r.Some? ==> r.value < |users| && users[r.value].id == id
    ensures r.Some? ==> forall j :: 0 <= j < r.value ==> users[j].id != id
    ensures r.None? <==> forall j :: 0 <= j < |users| ==> users[j].id != id
  {
    IndexOf(users, IdIs(id))
  }

  ghost predicate UniqueEmails(users: seq<User>) {
    forall i, j :: 0 <= i < j < |users| ==> users[i].email != users[j].email
  }

  ghost predicate UniqueIds(users: seq<User>) {
    forall i, j :: 0 <= i < j < |users| ==> users[i].id != users[j].id
  }

  ghost predicate TripsDuplicateFree(users: seq<User>) {
    forall i :: 0 <= i < |users| ==>
      NoDuplicates(users[i].upcomingTrips) && NoDuplicates(users[i].completedTrips)
  }

  /** The users keyed by email, as the duplicate check in `/register` treats them. */
  ghost function EmailIndex(users: seq<User>): map<string, User> {
    if users == [] then map[]
    else EmailIndex(users[..|users| - 1])[users[|users| - 1].email := users[|users| - 1]]
  }

  /** With unique emails the map and `findOne` agree: an email is a key exactly when
      `findOne` finds a user, and the key maps to that user. */
  lemma {:induction false} EmailIndexAgrees(users: seq<User>, email: string)
    requires UniqueEmails(users)
    ensures email in EmailIndex(users) <==> FindByEmail(users, email).Some?
    ensures email in EmailIndex(users) ==> EmailIndex(users)[email] == users[FindByEmail(users, email).value]
  {
    if users != [] {
      var init, last := users[..|users| - 1], users[|users| - 1];
      EmailIndexAgrees(init, email);
      var found := FindByEmail(users, email);
      if last.email == email {
        assert forall j :: 0 <= j < |init| ==> !EmailIs(email)(init[j]);
        assert found == Some(|users| - 1);
      } else {
        assert !EmailIs(email)(last);
        if found.Some? {
          assert found.value < |init| && init[found.value] == users[found.value];
          assert IndexOf(init, EmailIs(email)) == found;
        } else {
          assert forall j :: 0 <= j < |init| ==> init[j] == users[j];
        }
      }
    }
  }

  datatype LoginOutcome = LoggedIn(id: UserId) | InvalidCredentials {
    function Status(): int {
      if LoggedIn? then 200 else 400
    }
  }

  /** `POST /login`. `matchPassword` stands for bcrypt's comparison of the stored hash with
      the password sent. */
  function Login(users: seq<User>, email: string, password: string, matchPassword: (string, string) -> bool): (r: LoginOutcome)
    ensures r.LoggedIn? <==>
      FindByEmail(users, email).Some? && matchPassword(users[FindByEmail(users, email).value].password, password)
    ensures r.LoggedIn? ==> r.id == users[FindByEmail(users, email).value].id && users[FindByEmail(users, email).value].email == email
  {
    match FindByEmail(users, email)
    case None => InvalidCredentials
    case Some(i) => if matchPassword(users[i].password, password) then LoggedIn(users[i].id) else InvalidCredentials
  }

  /** An unknown email and a wrong password get the same 400 'Invalid credentials'. */
  lemma LoginFailuresAlike(users: seq<User>, unknown: string, known: string, p1: string, p2: string,
                           matchPassword: (string, string) -> bool)
    requires forall i :: 0 <= i < |users| ==> users[i].email != unknown
    requires exists i :: 0 <= i < |users| && users[i].email == known && !matchPassword(users[i].password, p2)
    requires UniqueEmails(users)
    ensures Login(users, unknown, p1, matchPassword) == Login(users, known, p2, matchPassword) == InvalidCredentials
    ensures Login(users, unknown, p1, matchPassword).Status() == 400
  {
    var found := FindByEmail(users, known);
    assert found.Some?;
  }

  datatype RegisterOutcome = Created(id: UserId) | UserAlreadyExists {
    function Status(): int {
      if Created? then 201 else 400
    }
  }

  datatype InterestsOutcome =
    | InterestsUpdated(user: User)
    | InterestsRejected(error: Interests.InterestsError)
    | InterestsUserNotFound
  {
    function Status(): int {
      match this
      case InterestsUpdated(_) => 200
      case InterestsRejected(_) => 400
      case InterestsUserNotFound => 404
    }
  }

  datatype TripOutcome =
    | TripsUpdated(trips: seq<PlaceId>)
    | TripAlreadyListed
    | TripUserNotFound
  {
    function Status(): int {
      match this
      case TripsUpdated(_) => 200
      case TripAlreadyListed => 400
      case TripUserNotFound => 404
    }
  }

  /** The users collection. `nextId` stands for the generation of fresh document ids. */
  class UserStore {
    var users: seq<User>
    var nextId: UserId

    ghost predicate Valid()
      reads this
    {
      && UniqueEmails(users)
      && UniqueIds(users)
      && TripsDuplicateFree(users)
      && forall i :: 0 <= i < |users| ==> users[i].id < nextId
    }

    constructor ()
      ensures Valid() && users == []
    {
      users := [];
      nextId := 0;
    }

    /** `POST /register`: an email already in use is refused with 400 and nothing is added;
        otherwise the new user is appended, which adds one key to the email map. */
    method Register(name: string, email: string, password: string, dateOfBirth: string) returns (r: RegisterOutcome)
      requires Valid()
      modifies this
      ensures Valid()
      ensures r.UserAlreadyExists? <==> FindByEmail(old(users), email).Some?
      ensures r.Status() == (if FindByEmail(old(users), email).Some? then 400 else 201)
      ensures r.UserAlreadyExists? ==> users == old(users) && nextId == old(nextId)
      ensures r.Created? ==>
        r.id == old(nextId) && users == old(users) + [NewUser(r.id, name, email, password, dateOfBirth)]
      ensures r.Created? ==>
        email !in old(EmailIndex(users)) && EmailIndex(users) == old(EmailIndex(users))[email := users[|users| - 1]]
    {
      if FindByEmail(users, email).Some? {
        return UserAlreadyExists;
      }
      EmailIndexAgrees(users, email);
      var u := NewUser(nextId, name, email, password, dateOfBirth);
      assert (users + [u])[..|users|] == users;
      users := users + [u];
      r := Created(nextId);
      nextId := nextId + 1;
    }

    /** `PUT /update-interests` and `PUT /interests`: the body is validated first (so an
        unknown user yields 404 only for a valid body); then the user's interests are
        replaced by the list exactly as sent. */
    method UpdateInterests(endpoint: Interests.Endpoint, userId: UserId, field: Interests.InterestsField)
      returns (r: InterestsOutcome)
      requires Valid()
      modifies this
      ensures Valid() && nextId == old(nextId)
      ensures r.Status() == 400 <==> Interests.Validate(field, Interests.Whitelist(endpoint)).Failure?
      ensures r.Status() == 404 ==> Interests.Validate(field, Interests.Whitelist(endpoint)).Success?
      ensures match Interests.Validate(field, Interests.Whitelist(endpoint))
        case Failure(e) => r == InterestsRejected(e) && users == old(users)
        case Success(interests) =>
          match FindById(old(users), userId)
          case None => r == InterestsUserNotFound && users == old(users)
          case Some(i) =>
            && users == old(users)[i := old(users)[i].(interests := interests)]
            && r == InterestsUpdated(users[i])
    {
      var validated := Interests.Validate(field, Interests.Whitelist(endpoint));
      if validated.Failure? {
        return InterestsRejected(validated.error);
      }
      var found := FindById(users, userId);
      if found.None? {
        return InterestsUserNotFound;
      }
      var i := found.value;
      users := users[i := users[i].(interests := validated.value)];
      r := InterestsUpdated(users[i]);
    }

    /** `PUT /trips/upcoming` and `PUT /trips/completed`: 404 for an unknown user, 400 when
        the place is already on that list (nothing changes), otherwise the place is appended
        to that list and the other list is left alone. */
    method AddTrip(list: Trips.TripList, userId: UserId, placeId: PlaceId) returns (r: TripOutcome)
      requires Valid()
      modifies this
      ensures Valid() && nextId == old(nextId)
      ensures r.Status() == 404 <==> FindById(old(users), userId).None?
      ensures r.Status() == 400 <==>
        FindById(old(users), userId).Some? && placeId in old(users)[FindById(old(users), userId).value].TripsOf(list)
      ensures match FindById(old(users), userId)
        case None => r == TripUserNotFound && users == old(users)
        case Some(i) =>
          match Trips.AppendTrip(old(users)[i].TripsOf(list), placeId)
          case Failure(_) => r == TripAlreadyListed && users == old(users)
          case Success(trips) =>
            && users == old(users)[i := old(users)[i].WithTrips(list, trips)]
            && r == TripsUpdated(trips)
    {
      var found := FindById(users, userId);
      if found.None? {
        return TripUserNotFound;
      }
      var i := found.value;
      var appended := Trips.AppendTrip(users[i].TripsOf(list), placeId);
      if appended.Failure? {
        return TripAlreadyListed;
      }
      Trips.AppendTripKeepsNoDuplicates(users[i].TripsOf(list), placeId);
      users := users[i := users[i].WithTrips(list, appended.value)];
      r := TripsUpdated(appended.value);
    }
  }
}
