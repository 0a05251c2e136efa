/** The server side of the SOS channel (server/Socket/SOSControl.js): the
    subscriber registry (a Map from user id to the Set of that user's
    subscribed socket ids), the socket-to-user map, the raise / cancel /
    subscribe / unsubscribe / disconnect handlers and the expiry timer.

    Emits become appends to `outbox`; acknowledgements are the methods'
    results; `setTimeout(expireEmergency)` becomes an entry of `timers` that
    `FireTimer` consumes; the clock, the fresh ObjectId and the outcome of the
    database calls are parameters. The haversine distance is the parameter
    `distance`, about which nothing is assumed. */
module SosControl {
  import opened Js
  import opened UserModel
  import opened UserStore

  type SocketId = string

  /** Fan-out radius in metres. */
  const RadiusMeters: real := 5000.0

  /** Lifetime of an emergency: 10 * 60 * 1000 ms. */
  const EmergencyTtlMs: nat := 600000

  /** (origin latitude, origin longitude, other latitude, other longitude) -> metres */
  type Distance = (real, real, real, real) -> real

  /** toNumber: the value itself if it is a finite number, else null. */
  function ToNumber(v: JsValue): (r: JsValue)
    ensures r.Num? || r.Null?
    ensures r.Num? <==> IsFiniteNumber(v)
    ensures r.Num? ==> r == v
  {
    if IsFiniteNumber(v) then v else Null
  }

  /** validateCoords: both values are finite numbers. */
  predicate ValidateCoords(latitude: JsValue, longitude: JsValue) {
    IsFiniteNumber(latitude) && IsFiniteNumber(longitude)
  }

  /** A raise payload passes the coordinate check exactly when both fields are
      finite numbers; NaN, Infinity, null, strings and missing fields fail. */
  lemma RaiseCoordinatesAccepted(latitude: JsValue, longitude: JsValue)
    ensures ValidateCoords(ToNumber(latitude), ToNumber(longitude)) <==> latitude.Num? && longitude.Num?
  {
  }

  /** A stored `Number` path as the JavaScript value read back from it. */
  function StoredValue(c: Option<real>): JsValue {
    match c
    case Some(x) => Num(x)
    case None => Null
  }

  datatype Requester = Requester(id: UserId, name: string, username: string, phoneNumber: string,
                                 medical: seq<MedicalEntry>, skills: seq<Skill>)

  /** What every `emergency:nearby` of one raise carries, apart from the distance. */
  datatype Alert = Alert(emergencyId: EmergencyId, ownerId: UserId, latitude: real, longitude: real,
                         expiresAt: nat, requester: Option<Requester>)

  datatype Event =
    | Nearby(to: SocketId, alert: Alert, distance: real)
    | Cancelled(to: SocketId, emergencyId: EmergencyId, ownerId: UserId)

  datatype Ack = Ok | Raised(emergencyId: EmergencyId, expiresAt: nat) | Error(message: string)

  /** Where the raise handler's database work fails: the update itself, or
      one of the two lookups that follow it. */
  datatype RaiseFailure = NoFailure | SaveFails | LookupFails

  /** An armed expiry timer: `expireEmergency(userId, emergencyId, ...)` due at `dueAt`. */
  datatype Timer = Timer(userId: UserId, emergencyId: EmergencyId, dueAt: nat)

  predicate NoDup<T(==)>(xs: seq<T>) {
    forall i, j :: 0 <= i < j < |xs| ==> xs[i] != xs[j]
  }

  /** Set.prototype.add on an insertion-ordered set. */
  function SetAdd(xs: seq<SocketId>, x: SocketId): (r: seq<SocketId>)
    ensures NoDup(xs) ==> NoDup(r)
    ensures x in r && forall y :: y in r <==> y in xs || y == x
    ensures x in xs ==> r == xs
  {
    if x in xs then xs else xs + [x]
  }

  /** Set.prototype.delete on an insertion-ordered set. */
  function SetDelete(xs: seq<SocketId>, x: SocketId): (r: seq<SocketId>)
    ensures NoDup(xs) ==> NoDup(r)
    ensures forall y :: y in r <==> y in xs && y != x
    ensures x !in xs ==> r == xs
  {
    if xs == [] then []
    else if xs[0] == x then SetDelete(xs[1..], x)
    else
      var rest := SetDelete(xs[1..], x);
      assert NoDup(xs) ==> xs[0] !in xs[1..] && NoDup(xs[1..]);
      [xs[0]] + rest
  }

  /** Every subscribed socket belongs to the user it is subscribed under. */
  predicate Owned(subs: map<UserId, seq<SocketId>>, owner: map<SocketId, UserId>) {
    forall u, s :: u in subs && s in subs[u] ==> s in owner && owner[s] == u
  }

  predicate SetsNoDup(subs: map<UserId, seq<SocketId>>) {
    forall u :: u in subs ==> NoDup(subs[u])
  }

  function RequesterOf(users: seq<User>, id: UserId): Option<Requester> {
    match FindUser(users, id)
    case None => None
    case Some(i) =>
      var u := users[i];
      Some(Requester(u.id, u.name, u.username, u.phoneNumber, u.medical, u.skills))
  }

  /** The responder's stored coordinates pass the query's `$ne: null` filter
      and the toNumber / validateCoords check. */
  predicate HasValidLocation(u: User) {
    KnownLocation(u.location)
    && ValidateCoords(ToNumber(StoredValue(u.location.latitude)), ToNumber(StoredValue(u.location.longitude)))
  }

  function DistanceTo(u: User, a: Alert, distance: Distance): real
    requires HasValidLocation(u)
  {
    distance(a.latitude, a.longitude, u.location.latitude.value, u.location.longitude.value)
  }

  /** A user that the raise notifies: someone other than the raiser, with a
      valid location within the radius. */
  predicate InRange(u: User, a: Alert, distance: Distance) {
    u.id != a.ownerId && HasValidLocation(u) && DistanceTo(u, a, distance) <= RadiusMeters
  }

  function SocketAlerts(sockets: seq<SocketId>, a: Alert, d: real): (r: seq<Event>)
    ensures |r| == |sockets|
    ensures forall j :: 0 <= j < |sockets| ==> r[j] == Nearby(sockets[j], a, d)
  {
    seq(|sockets|, j requires 0 <= j < |sockets| => Nearby(sockets[j], a, d))
  }

  function UserAlerts(u: User, subs: map<UserId, seq<SocketId>>, a: Alert, distance: Distance): seq<Event> {
    if InRange(u, a, distance) && u.id in subs then SocketAlerts(subs[u.id], a, DistanceTo(u, a, distance)) else []
  }

  /** The `emergency:nearby` events of one raise, in the order the handler
      emits them: users in collection order, each user's sockets in
      subscription order. */
  function NearbyEvents(users: seq<User>, subs: map<UserId, seq<SocketId>>, a: Alert, distance: Distance): (r: seq<Event>)
    ensures forall k :: 0 <= k < |r| ==> r[k].Nearby? && r[k].alert == a && r[k].distance <= RadiusMeters
  {
    if users == [] then []
    else NearbyEvents(users[..|users| - 1], subs, a, distance) + UserAlerts(users[|users| - 1], subs, a, distance)
  }

  function OwnerCancelled(sockets: seq<SocketId>, eid: EmergencyId, owner: UserId): (r: seq<Event>)
    ensures |r| == |sockets|
    ensures forall j :: 0 <= j < |sockets| ==> r[j] == Cancelled(sockets[j], eid, owner)
  {
    seq(|sockets|, j requires 0 <= j < |sockets| => Cancelled(sockets[j], eid, owner))
  }

  /** The `emergency:cancelled` events of one cancel: every set of the
      registry in key insertion order, every socket of a set in its order. */
  function CancelEvents(order: seq<UserId>, subs: map<UserId, seq<SocketId>>, eid: EmergencyId, owner: UserId): (r: seq<Event>)
    ensures forall k :: 0 <= k < |r| ==> r[k].Cancelled? && r[k].emergencyId == eid && r[k].ownerId == owner
  {
    if order == [] then []
    else
      var u := order[|order| - 1];
      CancelEvents(order[..|order| - 1], subs, eid, owner) + (if u in subs then OwnerCancelled(subs[u], eid, owner) else [])
  }

  /** Number of events addressed to socket `s`. */
  function CountTo(events: seq<Event>, s: SocketId): nat {
    if events == [] then 0
    else CountTo(events[..|events| - 1], s) + (if events[|events| - 1].to == s then 1 else 0)
  }

  lemma {:induction false} CountToAppend(a: seq<Event>, b: seq<Event>, s: SocketId)
    ensures CountTo(a + b, s) == CountTo(a, s) + CountTo(b, s)
    decreases |b|
  {
    if b == [] {
      assert a + b == a;
    } else {
      assert (a + b)[..|a + b| - 1] == a + b[..|b| - 1];
      CountToAppend(a, b[..|b| - 1], s);
    }
  }

  /** A socket set without duplicates addresses each of its sockets once. */
  lemma {:induction false} CountToSockets(sockets: seq<SocketId>, mk: SocketId -> Event, events: seq<Event>, s: SocketId)
    requires NoDup(sockets) && |events| == |sockets|
    requires forall j :: 0 <= j < |sockets| ==> events[j] == mk(sockets[j])
    requires forall x :: mk(x).to == x
    ensures CountTo(events, s) == if s in sockets then 1 else 0
    decreases |sockets|
  {
    if sockets != [] {
      var n := |sockets| - 1;
      CountToSockets(sockets[..n], mk, events[..n], s);
      assert events[..n] == events[..|events| - 1];
      assert events[n].to == sockets[n];
      if s == sockets[n] {
        assert s !in sockets[..n];
      }
      assert s in sockets <==> s in sockets[..n] || s == sockets[n] by {
        assert sockets == sockets[..n] + [sockets[n]];
      }
    }
  }

  /** Socket `s` is subscribed under user `u`, whom alert `a` reaches. */
  predicate AlertsUser(u: User, subs: map<UserId, seq<SocketId>>, a: Alert, distance: Distance, s: SocketId) {
    InRange(u, a, distance) && u.id in subs && s in subs[u.id]
  }

  predicate AlertsSome(users: seq<User>, subs: map<UserId, seq<SocketId>>, a: Alert, distance: Distance, s: SocketId) {
    exists i :: 0 <= i < |users| && AlertsUser(users[i], subs, a, distance, s)
  }

  lemma UserAlertsCount(u: User, subs: map<UserId, seq<SocketId>>, a: Alert, distance: Distance, s: SocketId)
    requires SetsNoDup(subs)
    ensures CountTo(UserAlerts(u, subs, a, distance), s) == if AlertsUser(u, subs, a, distance, s) then 1 else 0
  {
    if InRange(u, a, distance) && u.id in subs {
      CountToSockets(subs[u.id], x => Nearby(x, a, DistanceTo(u, a, distance)), UserAlerts(u, subs, a, distance), s);
    }
  }

  lemma AlertsSomeSnoc(users: seq<User>, subs: map<UserId, seq<SocketId>>, a: Alert, distance: Distance, s: SocketId)
    requires users != []
    ensures AlertsSome(users, subs, a, distance, s)
            <==> AlertsSome(users[..|users| - 1], subs, a, distance, s) || AlertsUser(users[|users| - 1], subs, a, distance, s)
  {
    var n := |users| - 1;
    if AlertsSome(users, subs, a, distance, s) && !AlertsUser(users[n], subs, a, distance, s) {
      var i :| 0 <= i < |users| && AlertsUser(users[i], subs, a, distance, s);
      assert users[..n][i] == users[i];
    }
    if AlertsSome(users[..n], subs, a, distance, s) {
      var i :| 0 <= i < n && AlertsUser(users[..n][i], subs, a, distance, s);
      assert users[i] == users[..n][i];
    }
  }

  /** A socket is subscribed under one user only, so at most one user's
      alerts reach it. */
  lemma AlertsOneUser(users: seq<User>, subs: map<UserId, seq<SocketId>>, owner: map<SocketId, UserId>,
                      a: Alert, distance: Distance, s: SocketId, n: nat)
    requires UniqueIds(users) && Owned(subs, owner)
    requires n < |users| && AlertsUser(users[n], subs, a, distance, s)
    ensures !AlertsSome(users[..n], subs, a, distance, s)
  {
    assert owner[s] == users[n].id;
    forall i | 0 <= i < n ensures !AlertsUser(users[..n][i], subs, a, distance, s) {
      assert users[..n][i] == users[i] && users[i].id != users[n].id;
    }
  }

  /** Fan-out reaches exactly the sockets subscribed under users other than
      the raiser whose stored coordinates are valid and within the radius,
      and each of them once. */
  lemma {:induction false} NearbyReachesExactly(users: seq<User>, subs: map<UserId, seq<SocketId>>,
                                                owner: map<SocketId, UserId>, a: Alert, distance: Distance, s: SocketId)
    requires UniqueIds(users) && Owned(subs, owner) && SetsNoDup(subs)
    ensures CountTo(NearbyEvents(users, subs, a, distance), s) == if AlertsSome(users, subs, a, distance, s) then 1 else 0
    decreases |users|
  {
    if users != [] {
      var n := |users| - 1;
      var init, u := users[..n], users[n];
      assert UniqueIds(init);
      NearbyReachesExactly(init, subs, owner, a, distance, s);
      var before, last := NearbyEvents(init, subs, a, distance), UserAlerts(u, subs, a, distance);
      assert NearbyEvents(users, subs, a, distance) == before + last;
      CountToAppend(before, last, s);
      UserAlertsCount(u, subs, a, distance, s);
      AlertsSomeSnoc(users, subs, a, distance, s);
      if AlertsUser(u, subs, a, distance, s) {
        AlertsOneUser(users, subs, owner, a, distance, s, n);
      }
    }
  }

  /** The raiser's own sockets never receive its alert. */
  lemma RaiserNotAlerted(users: seq<User>, subs: map<UserId, seq<SocketId>>,
                         owner: map<SocketId, UserId>, a: Alert, distance: Distance, s: SocketId)
    requires UniqueIds(users) && Owned(subs, owner) && SetsNoDup(subs)
    requires s in owner && owner[s] == a.ownerId
    ensures CountTo(NearbyEvents(users, subs, a, distance), s) == 0
  {
    NearbyReachesExactly(users, subs, owner, a, distance, s);
  }

  lemma NearbyPrefix(users: seq<User>, i: nat, subs: map<UserId, seq<SocketId>>, a: Alert, distance: Distance)
    requires i < |users|
    ensures NearbyEvents(users[..i + 1], subs, a, distance)
            == NearbyEvents(users[..i], subs, a, distance) + UserAlerts(users[i], subs, a, distance)
  {
    assert users[..i + 1][..i] == users[..i];
  }

  /** A cancel reaches every socket of every subscriber set, each once. */
  lemma {:induction false} CancelReachesAll(order: seq<UserId>, subs: map<UserId, seq<SocketId>>,
                                            owner: map<SocketId, UserId>, eid: EmergencyId, uid: UserId, s: SocketId)
    requires NoDup(order) && Owned(subs, owner) && SetsNoDup(subs)
    ensures CountTo(CancelEvents(order, subs, eid, uid), s)
            == if exists u :: u in order && u in subs && s in subs[u] then 1 else 0
    decreases |order|
  {
    if order != [] {
      var n := |order| - 1;
      var init, u := order[..n], order[n];
      assert NoDup(init);
      CancelReachesAll(init, subs, owner, eid, uid, s);
      var tail := if u in subs then OwnerCancelled(subs[u], eid, uid) else [];
      CountToAppend(CancelEvents(init, subs, eid, uid), tail, s);
      if u in subs {
        CountToSockets(subs[u], x => Cancelled(x, eid, uid), tail, s);
      }
      assert order == init + [u];
      assert u !in init by {
        forall idx | 0 <= idx < n ensures init[idx] != u {
          assert order[idx] != order[n];
        }
      }
      assert forall v :: v in order <==> v in init || v == u;
      if u in subs && s in subs[u] {
        assert owner[s] == u;
      }
    }
  }

  class SosServer {
    const store: Store
    /** The keys of `emergencySubscribers` in insertion order. */
    var subscriberOrder: seq<UserId>
    /** `emergencySubscribers`: user id -> that user's subscribed sockets. */
    var subscribers: map<UserId, seq<SocketId>>
    var socketToUser: map<SocketId, UserId>
    var outbox: seq<Event>
    var timers: seq<Timer>

    ghost predicate Valid()
      reads this, store
    {
      store.Valid() && Registry()
    }

    /** The registry's keys are listed once each in insertion order, every
        set is duplicate-free, and every socket in a set belongs to that
        set's user. */
    ghost predicate Registry()
      reads this`subscriberOrder, this`subscribers, this`socketToUser
    {
      && NoDup(subscriberOrder)
      && (forall u :: u in subscribers <==> u in subscriberOrder)
      && SetsNoDup(subscribers)
      && Owned(subscribers, socketToUser)
    }

    constructor (store: Store)
      requires store.Valid()
      ensures Valid() && this.store == store && store.users == old(store.users)
      ensures subscriberOrder == [] && subscribers == map[] && socketToUser == map[]
      ensures outbox == [] && timers == []
    {
      this.store := store;
      subscriberOrder, subscribers, socketToUser := [], map[], map[];
      outbox, timers := [], [];
    }

    /** `io.on("connection")`: a connection without a user id gets no
        handlers; otherwise the socket is bound to its user. Socket ids are
        unique per connection. */
    method Connect(socket: SocketId, userId: Option<UserId>)
      requires Valid() && socket !in socketToUser
      modifies this
      ensures Valid()
      ensures socketToUser == if userId.None? || userId.value == "" then old(socketToUser)
                              else old(socketToUser)[socket := userId.value]
      ensures subscribers == old(subscribers) && subscriberOrder == old(subscriberOrder)
      ensures outbox == old(outbox) && timers == old(timers)
    {
      if userId.None? || userId.value == "" {
        return;
      }
      socketToUser := socketToUser[socket := userId.value];
    }

    /** `emergency:subscribe`: create the user's set on first use and add this socket. */
    method Subscribe(socket: SocketId)
      requires Valid() && socket in socketToUser
      modifies this
      ensures Valid()
      ensures var u := old(socketToUser[socket]);
              && subscribers == old(subscribers)[u := SetAdd(if u in old(subscribers) then old(subscribers[u]) else [], socket)]
              && subscriberOrder == if u in old(subscribers) then old(subscriberOrder) else old(subscriberOrder) + [u]
      ensures socketToUser == old(socketToUser) && outbox == old(outbox) && timers == old(timers)
    {
      var u := socketToUser[socket];
      if u !in subscribers {
        subscribers := subscribers[u := []];
        subscriberOrder := subscriberOrder + [u];
      }
      subscribers := subscribers[u := SetAdd(subscribers[u], socket)];
    }

    /** Remove the socket from its user's set, if that set exists. */
    method RemoveSubscription(socket: SocketId)
      requires Valid() && socket in socketToUser
      modifies this`subscribers
      ensures Valid()
      ensures var u := socketToUser[socket];
              subscribers == if u in old(subscribers) then old(subscribers)[u := SetDelete(old(subscribers[u]), socket)]
                             else old(subscribers)
      ensures forall v :: v in subscribers ==> socket !in subscribers[v]
    {
      var u := socketToUser[socket];
      if u in subscribers {
        subscribers := subscribers[u := SetDelete(subscribers[u], socket)];
      }
    }

    /** `emergency:unsubscribe`: only this socket leaves only its user's set;
        no set is created. */
    method Unsubscribe(socket: SocketId)
      requires Valid() && socket in socketToUser
      modifies this
      ensures Valid()
      ensures var u := old(socketToUser[socket]);
              subscribers == if u in old(subscribers) then old(subscribers)[u := SetDelete(old(subscribers[u]), socket)]
                             else old(subscribers)
      ensures subscriberOrder == old(subscriberOrder) && socketToUser == old(socketToUser)
      ensures outbox == old(outbox) && timers == old(timers)
    {
      RemoveSubscription(socket);
    }

    /** `disconnect`: as unsubscribe, and the socket-to-user entry is dropped.
        The user's emergencies are left as they are. */
    method Disconnect(socket: SocketId)
      requires Valid() && socket in socketToUser
      modifies this
      ensures Valid()
      ensures var u := old(socketToUser[socket]);
              subscribers == if u in old(subscribers) then old(subscribers)[u := SetDelete(old(subscribers[u]), socket)]
                             else old(subscribers)
      ensures socketToUser == old(socketToUser) - {socket}
      ensures subscriberOrder == old(subscriberOrder) && outbox == old(outbox) && timers == old(timers)
      ensures forall v :: v in subscribers ==> socket !in subscribers[v]
    {
      RemoveSubscription(socket);
      socketToUser := socketToUser - {socket};
    }

    /** The forEach over the other users and over each one's sockets. */
    method EmitNearby(a: Alert, distance: Distance)
      modifies this`outbox
      ensures outbox == old(outbox) + NearbyEvents(store.users, subscribers, a, distance)
    {
      var users := store.users;
      var i := 0;
      while i < |users|
        invariant 0 <= i <= |users|
        invariant outbox == old(outbox) + NearbyEvents(users[..i], subscribers, a, distance)
      {
        var u := users[i];
        if InRange(u, a, distance) && u.id in subscribers {
          EmitSockets(subscribers[u.id], a, DistanceTo(u, a, distance));
        }
        NearbyPrefix(users, i, subscribers, a, distance);
        i := i + 1;
      }
      assert users[..i] == users;
    }

    /** The inner forEach: one `emergency:nearby` per socket of a user. */
    method EmitSockets(sockets: seq<SocketId>, a: Alert, d: real)
      modifies this`outbox
      ensures outbox == old(outbox) + SocketAlerts(sockets, a, d)
    {
      var j := 0;
      while j < |sockets|
        invariant 0 <= j <= |sockets|
        invariant outbox == old(outbox) + SocketAlerts(sockets[..j], a, d)
      {
        assert SocketAlerts(sockets[..j + 1], a, d) == SocketAlerts(sockets[..j], a, d) + [Nearby(sockets[j], a, d)];
        outbox := outbox + [Nearby(sockets[j], a, d)];
        j := j + 1;
      }
      assert sockets[..j] == sockets;
    }

    /** The forEach over every subscriber set and every socket in it. */
    method EmitCancelled(eid: EmergencyId, uid: UserId)
      modifies this`outbox
      ensures outbox == old(outbox) + CancelEvents(subscriberOrder, subscribers, eid, uid)
    {
      var order := subscriberOrder;
      var i := 0;
      while i < |order|
        invariant 0 <= i <= |order|
        invariant outbox == old(outbox) + CancelEvents(order[..i], subscribers, eid, uid)
      {
        var u := order[i];
        if u in subscribers {
          EmitOwnerCancelled(subscribers[u], eid, uid);
        }
        assert order[..i + 1][..i] == order[..i];
        i := i + 1;
      }
      assert order[..i] == order;
    }

    /** The inner forEach: one `emergency:cancelled` per socket of a set. */
    method EmitOwnerCancelled(sockets: seq<SocketId>, eid: EmergencyId, uid: UserId)
      modifies this`outbox
      ensures outbox == old(outbox) + OwnerCancelled(sockets, eid, uid)
    {
      var j := 0;
      while j < |sockets|
        invariant 0 <= j <= |sockets|
        invariant outbox == old(outbox) + OwnerCancelled(sockets[..j], eid, uid)
      {
        assert OwnerCancelled(sockets[..j + 1], eid, uid) == OwnerCancelled(sockets[..j], eid, uid) + [Cancelled(sockets[j], eid, uid)];
        outbox := outbox + [Cancelled(sockets[j], eid, uid)];
        j := j + 1;
      }
      assert sockets[..j] == sockets;
    }

    /** `emergency:raise`. */
    method Raise(socket: SocketId, latitude: JsValue, longitude: JsValue, now: nat, newId: EmergencyId,
                 failure: RaiseFailure, distance: Distance) returns (ack: Ack)
      requires Valid() && socket in socketToUser
      modifies this, store
      ensures Valid()
      ensures subscribers == old(subscribers) && subscriberOrder == old(subscriberOrder) && socketToUser == old(socketToUser)
      ensures Evolves(old(store.users), store.users)
      ensures !ValidateCoords(ToNumber(latitude), ToNumber(longitude)) ==>
                ack == Error("Latitude and longitude are required")
                && store.users == old(store.users) && outbox == old(outbox) && timers == old(timers)
      ensures ValidateCoords(ToNumber(latitude), ToNumber(longitude)) ==>
                var uid := socketToUser[socket];
                var e := Emergency(newId, true, now, now + EmergencyTtlMs, None);
                if failure == SaveFails then
                  ack == Error("Failed to save emergency")
                  && store.users == old(store.users) && outbox == old(outbox) && timers == old(timers)
                else
                  && store.users == PushEmergency(old(store.users), uid, e, latitude.n, longitude.n)
                  && timers == old(timers) + [Timer(uid, newId, now + EmergencyTtlMs)]
                  && if failure == LookupFails then
                       ack == Error("Failed to save emergency") && outbox == old(outbox)
                     else
                       var a := Alert(newId, uid, latitude.n, longitude.n, now + EmergencyTtlMs, RequesterOf(store.users, uid));
                       ack == Raised(newId, now + EmergencyTtlMs)
                       && outbox == old(outbox) + NearbyEvents(store.users, subscribers, a, distance)
    {
      var uid := socketToUser[socket];
      var lat := ToNumber(latitude);
      var lon := ToNumber(longitude);
      if !ValidateCoords(lat, lon) {
        ack := Error("Latitude and longitude are required");
        return;
      }
      var expiresAt := now + EmergencyTtlMs;
      var e := Emergency(newId, true, now, expiresAt, None);
      if failure == SaveFails {
        ack := Error("Failed to save emergency");
        return;
      }
      SaveEmergency(uid, e, lat.n, lon.n);
      if failure == LookupFails {
        ack := Error("Failed to save emergency");
        return;
      }
      var a := Alert(newId, uid, lat.n, lon.n, expiresAt, RequesterOf(store.users, uid));
      EmitNearby(a, distance);
      ack := Raised(newId, expiresAt);
    }

    /** The raise update on the raiser's document, then the expiry timer. */
    method SaveEmergency(uid: UserId, e: Emergency, latitude: real, longitude: real)
      requires Valid()
      modifies this`timers, store
      ensures Valid()
      ensures store.users == PushEmergency(old(store.users), uid, e, latitude, longitude)
      ensures timers == old(timers) + [Timer(uid, e.id, e.expiresAt)]
    {
      var before := store.users;
      store.users := PushEmergency(before, uid, e, latitude, longitude);
      EvolvesUnique(before, store.users);
      timers := timers + [Timer(uid, e.id, e.expiresAt)];
    }

    /** `emergency:cancel`. */
    method Cancel(socket: SocketId, emergencyId: Option<EmergencyId>, dbFails: bool) returns (ack: Ack)
      requires Valid() && socket in socketToUser
      modifies this, store
      ensures Valid()
      ensures subscribers == old(subscribers) && subscriberOrder == old(subscriberOrder) && socketToUser == old(socketToUser)
      ensures timers == old(timers)
      ensures Evolves(old(store.users), store.users)
      ensures var uid := socketToUser[socket];
              if emergencyId.None? || emergencyId.value == "" then
                ack == Error("emergencyId is required") && store.users == old(store.users) && outbox == old(outbox)
              else if dbFails then
                ack == Error("Failed to cancel emergency") && store.users == old(store.users) && outbox == old(outbox)
              else if !IsActiveRecord(old(store.users), uid, emergencyId.value) then
                ack == Error("Emergency not found") && store.users == old(store.users) && outbox == old(outbox)
              else
                ack == Ok
                && store.users == Deactivate(old(store.users), uid, emergencyId.value)
                && outbox == old(outbox) + CancelEvents(subscriberOrder, subscribers, emergencyId.value, uid)
    {
      var uid := socketToUser[socket];
      if emergencyId.None? || emergencyId.value == "" {
        ack := Error("emergencyId is required");
        return;
      }
      if dbFails {
        ack := Error("Failed to cancel emergency");
        return;
      }
      var eid := emergencyId.value;
      var modified := IsActiveRecord(store.users, uid, eid);
      var before := store.users;
      store.users := Deactivate(before, uid, eid);
      if !modified {
        ack := Error("Emergency not found");
        return;
      }
      EvolvesUnique(before, store.users);
      EmitCancelled(eid, uid);
      ack := Ok;
    }

    /** The expiry timer fires: `isActive` becomes false only if the record is
        still active; nothing is emitted. */
    method FireTimer(k: nat, dbFails: bool)
      requires Valid() && k < |timers|
      modifies this, store
      ensures Valid()
      ensures timers == old(timers[..k] + timers[k + 1..])
      ensures subscribers == old(subscribers) && subscriberOrder == old(subscriberOrder) && socketToUser == old(socketToUser)
      ensures outbox == old(outbox)
      ensures Evolves(old(store.users), store.users)
      ensures var t := old(timers[k]);
              store.users == if dbFails then old(store.users) else Deactivate(old(store.users), t.userId, t.emergencyId)
      ensures var t := old(timers[k]);
              !IsActiveRecord(old(store.users), t.userId, t.emergencyId) ==> store.users == old(store.users)
    {
      var t := timers[k];
      timers := timers[..k] + timers[k + 1..];
      if !dbFails {
        var before := store.users;
        store.users := Deactivate(before, t.userId, t.emergencyId);
        EvolvesUnique(before, store.users);
      }
    }
  }
}
