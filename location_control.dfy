/** The `location:update` socket handler (server/Socket/LocationControl.js):
    a payload whose two coordinates are finite numbers overwrites the
    connected user's stored location; anything else is refused before the
    database is touched. The user id is the one authenticated on the socket;
    whether the database call throws is the parameter `dbFails`. */
module LocationControl {
  import opened Js
  import opened UserModel
  import opened UserStore
  import SosControl

  datatype Ack = Ok | Error(message: string)

  /** validateLocation: both fields are of type number and finite. */
  predicate ValidateLocation(latitude: JsValue, longitude: JsValue) {
    IsFiniteNumber(latitude) && IsFiniteNumber(longitude)
  }

  /** The location channel and the raise handler accept exactly the same
      coordinates: validateLocation on the raw values agrees with
      validateCoords on their toNumber images. */
  lemma SameCoordinateRule(latitude: JsValue, longitude: JsValue)
    ensures ValidateLocation(latitude, longitude)
            <==> SosControl.ValidateCoords(SosControl.ToNumber(latitude), SosControl.ToNumber(longitude))
  {
  }

  /** The handler: the stored location becomes exactly the payload's
      coordinates when the payload is valid and the update succeeds, and
      nothing changes otherwise. */
  method HandleLocationUpdate(store: Store, userId: UserId, latitude: JsValue, longitude: JsValue, dbFails: bool)
    returns (ack: Ack)
    requires store.Valid()
    modifies store
    ensures store.Valid()
    ensures !ValidateLocation(latitude, longitude) ==>
              ack == Error("Invalid location payload") && store.users == old(store.users)
    ensures ValidateLocation(latitude, longitude) && dbFails ==>
              ack == Error("Failed to save location") && store.users == old(store.users)
    ensures ValidateLocation(latitude, longitude) && !dbFails ==>
              ack == Ok && store.users == SetLocation(old(store.users), userId, latitude.n, longitude.n)
  {
    if !ValidateLocation(latitude, longitude) {
      ack := Error("Invalid location payload");
      return;
    }
    if dbFails {
      ack := Error("Failed to save location");
      return;
    }
    store.users := SetLocation(store.users, userId, latitude.n, longitude.n);
    ack := Ok;
  }

  /** What a successful update leaves behind: the user's coordinates are the
      payload's, every other document is untouched, and the user's other
      fields (emergencies included) are kept. */
  lemma LocationUpdateEffect(users: seq<User>, userId: UserId, latitude: real, longitude: real, i: nat)
    requires UniqueIds(users) && i < |users|
    ensures var r := SetLocation(users, userId, latitude, longitude);
            && (users[i].id == userId ==> r[i] == users[i].(location := Location(Some(latitude), Some(longitude))))
            && (users[i].id != userId ==> r[i] == users[i])
  {
  }

  /** Sending the same position twice stores the same thing as sending it once. */
  lemma {:induction false} LocationUpdateIdempotent(users: seq<User>, userId: UserId, latitude: real, longitude: real)
    requires UniqueIds(users)
    ensures SetLocation(SetLocation(users, userId, latitude, longitude), userId, latitude, longitude)
            == SetLocation(users, userId, latitude, longitude)
  {
    var once := SetLocation(users, userId, latitude, longitude);
    var twice := SetLocation(once, userId, latitude, longitude);
    assert UniqueIds(once);
    forall i | 0 <= i < |users| ensures twice[i] == once[i] {
      if users[i].id == userId {
        assert once[i].id == userId;
      }
    }
  }
}
