/** The `user` collection as the socket handlers use it: an in-memory table
    of user documents in the collection's natural order, and the three
    updates the handlers send to it (the `$set` of a location, the raise
    update that `$push`es an emergency and `$set`s the location, and the
    positional `$set` of `emergencies.$.isActive` to false). */
module UserStore {
  import opened Js
  import opened UserModel

  predicate UniqueIds(users: seq<User>) {
    forall i, j :: 0 <= i < j < |users| ==> users[i].id != users[j].id
  }

  /** Index of the document whose `_id` is `id` (findById). */
  function FindUser(users: seq<User>, id: UserId): (r: Option<nat>)
    ensures r.Some? ==> r.value < |users| && users[r.value].id == id
    ensures r.Some? ==> forall j :: 0 <= j < r.value ==> users[j].id != id
    ensures r.None? <==> forall j :: 0 <= j < |users| ==> users[j].id != id
  {
    if users == [] then None
    else if users[0].id == id then Some(0)
    else match FindUser(users[1..], id)
      case None => None
      case Some(k) => Some(k + 1)
  }

  /** FindUser only looks at the ids. */
  lemma {:induction false} FindUserSameIds(a: seq<User>, b: seq<User>, id: UserId)
    requires |a| == |b| && forall i :: 0 <= i < |a| ==> a[i].id == b[i].id
    ensures FindUser(a, id) == FindUser(b, id)
    decreases |a|
  {
    if a != [] && a[0].id != id {
      assert forall i :: 0 <= i < |a| - 1 ==> a[1..][i].id == b[1..][i].id;
      FindUserSameIds(a[1..], b[1..], id);
    }
  }

  /** Index of the first emergency record whose `_id` is `eid`. */
  function FindRecord(es: seq<Emergency>, eid: EmergencyId): (r: Option<nat>)
    ensures r.Some? ==> r.value < |es| && es[r.value].id == eid
    ensures r.Some? ==> forall j :: 0 <= j < r.value ==> es[j].id != eid
    ensures r.None? <==> forall j :: 0 <= j < |es| ==> es[j].id != eid
  {
    if es == [] then None
    else if es[0].id == eid then Some(0)
    else match FindRecord(es[1..], eid)
      case None => None
      case Some(k) => Some(k + 1)
  }

  /** `b` differs from `a` at most in the location. */
  predicate SameExceptLocation(a: User, b: User) {
    b == a.(location := b.location)
  }

  /** `b` is `a` after some history: the same documents in the same order,
      every emergency record of `a` still present at its position with the
      same id, creation and expiry time and image, active in `b` only if it
      was active in `a`, and possibly new records appended. */
  predicate Evolves(a: seq<User>, b: seq<User>) {
    |a| == |b|
    && forall i :: 0 <= i < |a| ==> RecordsEvolve(a[i].emergencies, b[i].emergencies) && b[i].id == a[i].id
  }

  predicate RecordsEvolve(a: seq<Emergency>, b: seq<Emergency>) {
    |a| <= |b|
    && forall k :: 0 <= k < |a| ==>
         b[k].(isActive := a[k].isActive) == a[k] && (b[k].isActive ==> a[k].isActive)
  }

  lemma EvolvesTransitive(a: seq<User>, b: seq<User>, c: seq<User>)
    requires Evolves(a, b) && Evolves(b, c)
    ensures Evolves(a, c)
  {
    forall i | 0 <= i < |a| ensures RecordsEvolve(a[i].emergencies, c[i].emergencies) {
      var ea, eb, ec := a[i].emergencies, b[i].emergencies, c[i].emergencies;
      forall k | 0 <= k < |ea|
        ensures ec[k].(isActive := ea[k].isActive) == ea[k] && (ec[k].isActive ==> ea[k].isActive)
      {
        assert eb[k].(isActive := ea[k].isActive) == ea[k];
        assert ec[k].(isActive := eb[k].isActive) == eb[k];
      }
    }
  }

  /** Document ids survive any history, so they stay unique. */
  lemma EvolvesUnique(a: seq<User>, b: seq<User>)
    requires Evolves(a, b) && UniqueIds(a)
    ensures UniqueIds(b)
  {
    forall i, j | 0 <= i < j < |b| ensures b[i].id != b[j].id {
      assert b[i].id == a[i].id && b[j].id == a[j].id;
    }
  }

  /** `findByIdAndUpdate(id, {$set: location})`: the matching document gets
      exactly these coordinates; nothing else in the collection changes; a
      missing id changes nothing. */
  function SetLocation(users: seq<User>, id: UserId, latitude: real, longitude: real): (r: seq<User>)
    ensures |r| == |users| && Evolves(users, r)
    ensures forall i :: 0 <= i < |users| ==> SameExceptLocation(users[i], r[i])
    ensures forall i :: 0 <= i < |users| && users[i].id == id && UniqueIds(users) ==>
              r[i].location == Location(Some(latitude), Some(longitude))
    ensures forall i :: 0 <= i < |users| && users[i].id != id ==> r[i] == users[i]
    ensures FindUser(users, id).None? ==> r == users
  {
    match FindUser(users, id)
    case None => users
    case Some(i) =>
      var r := users[i := users[i].(location := Location(Some(latitude), Some(longitude)))];
      assert forall j :: 0 <= j < |users| && j != i ==> r[j] == users[j];
      assert RecordsEvolve(users[i].emergencies, r[i].emergencies);
      r
  }

  /** The raise update: `$push` of the new record and `$set` of the location
      on the raiser's document. */
  function PushEmergency(users: seq<User>, id: UserId, e: Emergency, latitude: real, longitude: real): (r: seq<User>)
    ensures Evolves(users, r)
    ensures forall i :: 0 <= i < |users| && users[i].id != id ==> r[i] == users[i]
    ensures forall i :: 0 <= i < |users| && users[i].id == id && UniqueIds(users) ==>
              r[i] == users[i].(emergencies := users[i].emergencies + [e],
                                location := Location(Some(latitude), Some(longitude)))
    ensures FindUser(users, id).None? ==> r == users
  {
    match FindUser(users, id)
    case None => users
    case Some(i) =>
      var u := users[i];
      var r := users[i := u.(emergencies := u.emergencies + [e], location := Location(Some(latitude), Some(longitude)))];
      assert RecordsEvolve(u.emergencies, r[i].emergencies);
      r
  }

  /** Whether the user's first record with id `eid` exists and is active:
      the case in which the positional update reports modifiedCount 1. */
  predicate IsActiveRecord(users: seq<User>, uid: UserId, eid: EmergencyId) {
    match FindUser(users, uid)
    case None => false
    case Some(i) =>
      match FindRecord(users[i].emergencies, eid)
      case None => false
      case Some(k) => users[i].emergencies[k].isActive
  }

  /** `updateOne({_id: uid, "emergencies._id": eid}, {$set: {"emergencies.$.isActive": false}})`
      and, for the expiry timer, the same update guarded by `isActive: true`:
      the user's record with id `eid` (the first one, as the positional
      operator picks) becomes inactive. */
  function Deactivate(users: seq<User>, uid: UserId, eid: EmergencyId): (r: seq<User>)
    ensures Evolves(users, r)
    ensures r != users <==> IsActiveRecord(users, uid, eid)
    ensures !IsActiveRecord(r, uid, eid)
    ensures forall i :: 0 <= i < |users| && users[i].id != uid ==> r[i] == users[i]
  {
    match FindUser(users, uid)
    case None => users
    case Some(i) =>
      match FindRecord(users[i].emergencies, eid)
      case None => users
      case Some(k) =>
        MarkEvolves(users, i, k);
        MarkChanges(users, i, k);
        MarkClears(users, uid, eid, i, k);
        MarkInactive(users, i, k)
  }

  /** The collection with record `k` of document `i` set inactive. */
  function MarkInactive(users: seq<User>, i: nat, k: nat): seq<User>
    requires i < |users| && k < |users[i].emergencies|
  {
    var es := users[i].emergencies;
    users[i := users[i].(emergencies := es[k := es[k].(isActive := false)])]
  }

  lemma MarkEvolves(users: seq<User>, i: nat, k: nat)
    requires i < |users| && k < |users[i].emergencies|
    ensures Evolves(users, MarkInactive(users, i, k))
    ensures forall j :: 0 <= j < |users| && j != i ==> MarkInactive(users, i, k)[j] == users[j]
  {
    var es := users[i].emergencies;
    assert RecordsEvolve(es, es[k := es[k].(isActive := false)]);
  }

  lemma MarkChanges(users: seq<User>, i: nat, k: nat)
    requires i < |users| && k < |users[i].emergencies|
    ensures MarkInactive(users, i, k) != users <==> users[i].emergencies[k].isActive
  {
    var r := MarkInactive(users, i, k);
    if users[i].emergencies[k].isActive {
      assert r[i].emergencies[k] != users[i].emergencies[k];
    } else {
      var es := users[i].emergencies;
      assert es[k := es[k].(isActive := false)] == es;
    }
  }

  lemma MarkClears(users: seq<User>, uid: UserId, eid: EmergencyId, i: nat, k: nat)
    requires FindUser(users, uid) == Some(i)
    requires k < |users[i].emergencies| && FindRecord(users[i].emergencies, eid) == Some(k)
    ensures !IsActiveRecord(MarkInactive(users, i, k), uid, eid)
  {
    var r := MarkInactive(users, i, k);
    FindUserSameIds(users, r, uid);
    var es := users[i].emergencies;
    var es' := es[k := es[k].(isActive := false)];
    assert r[i].emergencies == es';
    FindRecordSameIds(es, es', eid);
  }

  /** FindRecord only looks at the ids. */
  lemma {:induction false} FindRecordSameIds(a: seq<Emergency>, b: seq<Emergency>, eid: EmergencyId)
    requires |a| == |b| && forall i :: 0 <= i < |a| ==> a[i].id == b[i].id
    ensures FindRecord(a, eid) == FindRecord(b, eid)
    decreases |a|
  {
    if a != [] && a[0].id != eid {
      assert forall i :: 0 <= i < |a| - 1 ==> a[1..][i].id == b[1..][i].id;
      FindRecordSameIds(a[1..], b[1..], eid);
    }
  }

  /** Deactivation neither adds nor removes records and touches no record
      with another id. */
  lemma DeactivateTouchesOneRecord(users: seq<User>, uid: UserId, eid: EmergencyId, i: nat, k: nat)
    requires i < |users| && k < |users[i].emergencies|
    ensures |Deactivate(users, uid, eid)[i].emergencies| == |users[i].emergencies|
    ensures users[i].emergencies[k].id != eid ==> Deactivate(users, uid, eid)[i].emergencies[k] == users[i].emergencies[k]
  {
  }

  /** A second deactivation of the same record changes nothing: the expiry
      timer firing after a cancel (or a repeated cancel) is a no-op. */
  lemma DeactivateIdempotent(users: seq<User>, uid: UserId, eid: EmergencyId)
    ensures Deactivate(Deactivate(users, uid, eid), uid, eid) == Deactivate(users, uid, eid)
  {
  }

  class Store {
    var users: seq<User>

    ghost predicate Valid()
      reads this
    {
      UniqueIds(users)
    }

    constructor (initial: seq<User>)
      requires UniqueIds(initial)
      ensures Valid() && users == initial
    {
      users := initial;
    }
  }
}
