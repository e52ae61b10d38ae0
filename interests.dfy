/** Validation of the `interests` body field in `PUT /update-interests` and `PUT /interests`:
    a non-array is rejected, then any entry outside the endpoint's whitelist is rejected and
    reported, and otherwise the list is accepted exactly as sent. */
module Interests {
  import opened Wrappers
  import opened Seqs

  /** An entry of the request's JSON array: a string, or any other JSON value (number,
      boolean, null, object, array), which `includes` never finds in a list of strings. */
  datatype JsonValue = JString(s: string) | JNonString(text: string)

  /** The `interests` field of the request body: an array, or anything else (`Array.isArray`). */
  datatype InterestsField = JArray(items: seq<JsonValue>) | NotAnArray

  /** The two endpoints, each with its own whitelist. */
  datatype Endpoint = UpdateInterests | InterestsPage

  /** The whitelist of `PUT /update-interests` (the EditProfile page). */
  const UPDATE_INTERESTS_WHITELIST: seq<string> := [
    "Beach", "Mountains", "Cities", "Culture", "Food & Wine",
    "Adventure", "History", "Art", "Nature", "Photography",
    "Wildlife", "Architecture", "Shopping", "Nightlife", "Relaxation",
    "Sports", "Music", "Festivals", "Local Experience", "Eco Tourism"
  ]

  /** The whitelist of `PUT /interests` (the Interests page): 'Sport', not 'Sports', and no
      'Cities', 'Music', 'Shopping', 'Nightlife' or 'Architecture'. */
  const INTERESTS_PAGE_WHITELIST: seq<string> := [
    "History", "Adventure", "Culture", "Relaxation", "Nature", "Sport", "Wildlife",
    "Beach", "Mountains", "Food & Wine", "Art", "Photography", "Festivals",
    "Local Experience", "Eco Tourism"
  ]

  function Whitelist(e: Endpoint): seq<string> {
    match e
    case UpdateInterests => UPDATE_INTERESTS_WHITELIST
    case InterestsPage => INTERESTS_PAGE_WHITELIST
  }

  /** `validInterests.includes(interest)`. */
  predicate Allowed(whitelist: seq<string>, v: JsonValue): (b: bool)
    ensures v.JNonString? ==> !b
    ensures v.JString? ==> (b <==> v.s in whitelist)
  {
    v.JString? && v.s in whitelist
  }

  function Rejected(whitelist: seq<string>): JsonValue -> bool {
    v => !Allowed(whitelist, v)
  }

  /** `interests.filter((interest) => !validInterests.includes(interest))`. */
  function InvalidEntries(items: seq<JsonValue>, whitelist: seq<string>): (r: seq<JsonValue>)
    ensures |r| <= |items|
    ensures forall i :: 0 <= i < |r| ==> !Allowed(whitelist, r[i]) && r[i] in items
  {
    Filter(items, Rejected(whitelist))
  }

  /** The reported entries are exactly the rejected ones: each reported entry is off the
      whitelist, each off-whitelist entry is reported as often as it was sent, and the report
      keeps input order (it distributes over concatenation of the input). */
  lemma InvalidEntriesExact(items: seq<JsonValue>, more: seq<JsonValue>, whitelist: seq<string>)
    ensures forall i :: 0 <= i < |InvalidEntries(items, whitelist)| ==>
      !Allowed(whitelist, InvalidEntries(items, whitelist)[i])
    ensures forall v :: !Allowed(whitelist, v) ==>
      multiset(InvalidEntries(items, whitelist))[v] == multiset(items)[v]
    ensures InvalidEntries(items + more, whitelist) == InvalidEntries(items, whitelist) + InvalidEntries(more, whitelist)
  {
    forall v | !Allowed(whitelist, v)
      ensures multiset(InvalidEntries(items, whitelist))[v] == multiset(items)[v]
    {
      FilterKeepsMultiplicity(items, Rejected(whitelist), v);
    }
    FilterAppend(items, more, Rejected(whitelist));
  }

  /** Nothing is reported exactly when every entry is a whitelisted string. */
  lemma InvalidEntriesEmptyIff(items: seq<JsonValue>, whitelist: seq<string>)
    ensures InvalidEntries(items, whitelist) == [] <==> forall i :: 0 <= i < |items| ==> Allowed(whitelist, items[i])
  {
    if InvalidEntries(items, whitelist) == [] {
      forall i | 0 <= i < |items| ensures Allowed(whitelist, items[i]) {
        var v := items[i];
        assert Rejected(whitelist)(v) ==> v in InvalidEntries(items, whitelist);
      }
    } else {
      var v := InvalidEntries(items, whitelist)[0];
      assert v in items;
    }
  }

  /** Why a request was turned away with 400. */
  datatype InterestsError = NotArray | InvalidInterests(entries: seq<JsonValue>)

  function StringValues(items: seq<JsonValue>): (r: seq<string>)
    requires forall i :: 0 <= i < |items| ==> items[i].JString?
    ensures |r| == |items|
    ensures forall i :: 0 <= i < |r| ==> items[i] == JString(r[i])
  {
    if items == [] then [] else [items[0].s] + StringValues(items[1..])
  }

  /** The validation step of both handlers: the interests to store, or why the request is
      rejected. */
  function Validate(field: InterestsField, whitelist: seq<string>): (r: Result<seq<string>, InterestsError>)
    ensures field.NotAnArray? ==> r == Failure(NotArray)
    ensures field.JArray? ==>
      (r.Success? <==> forall i :: 0 <= i < |field.items| ==> Allowed(whitelist, field.items[i]))
    ensures r.Success? ==>
      (field.JArray? && |r.value| == |field.items|
       && forall i :: 0 <= i < |r.value| ==> field.items[i] == JString(r.value[i]))
    ensures field.JArray? && r.Failure? ==>
      r.error == InvalidInterests(InvalidEntries(field.items, whitelist)) && r.error.entries != []
  {
    match field
    case NotAnArray => Failure(NotArray)
    case JArray(items) =>
      InvalidEntriesEmptyIff(items, whitelist);
      var invalid := InvalidEntries(items, whitelist);
      if |invalid| > 0 then Failure(InvalidInterests(invalid))
      else Success(StringValues(items))
  }

  /** An empty array is always accepted, and the stored interests become empty. */
  lemma EmptyArrayAccepted(whitelist: seq<string>)
    ensures Validate(JArray([]), whitelist) == Success([])
  {
  }

  /** A one-entry array is accepted exactly when its entry is a whitelisted string. */
  lemma ValidateOne(v: JsonValue, whitelist: seq<string>)
    ensures Validate(JArray([v]), whitelist) ==
      if Allowed(whitelist, v) then Success([v.s]) else Failure(InvalidInterests([v]))
  {
    var items := [v];
    assert items[1..] == [];
    assert Filter(items, Rejected(whitelist)) == (if Allowed(whitelist, v) then [] else [v]);
    if Allowed(whitelist, v) {
      assert StringValues(items) == [v.s];
    }
  }

  /** Six names pass `/update-interests` but are rejected by `/interests`. */
  lemma OnlyUpdateInterestsAccepts(name: string)
    requires name in ["Sports", "Cities", "Music", "Shopping", "Nightlife", "Architecture"]
    ensures Validate(JArray([JString(name)]), Whitelist(UpdateInterests)) == Success([name])
    ensures Validate(JArray([JString(name)]), Whitelist(InterestsPage)) == Failure(InvalidInterests([JString(name)]))
  {
    ValidateOne(JString(name), UPDATE_INTERESTS_WHITELIST);
    ValidateOne(JString(name), INTERESTS_PAGE_WHITELIST);
    assert Allowed(UPDATE_INTERESTS_WHITELIST, JString(name)) by {
      assert name in UPDATE_INTERESTS_WHITELIST;
    }
    assert !Allowed(INTERESTS_PAGE_WHITELIST, JString(name)) by {
      assert name !in INTERESTS_PAGE_WHITELIST;
    }
  }

  lemma SportListedOnlyOnInterestsPage()
    ensures "Sport" !in UPDATE_INTERESTS_WHITELIST
    ensures "Sport" in INTERESTS_PAGE_WHITELIST
  {
    assert INTERESTS_PAGE_WHITELIST[5] == "Sport";
  }

  /** 'Sport' passes only `/interests`. */
  lemma OnlyInterestsPageAcceptsSport()
    ensures Validate(JArray([JString("Sport")]), Whitelist(UpdateInterests)) == Failure(InvalidInterests([JString("Sport")]))
    ensures Validate(JArray([JString("Sport")]), Whitelist(InterestsPage)) == Success(["Sport"])
  {
    SportListedOnlyOnInterestsPage();
    ValidateOne(JString("Sport"), UPDATE_INTERESTS_WHITELIST);
    ValidateOne(JString("Sport"), INTERESTS_PAGE_WHITELIST);
  }
}
