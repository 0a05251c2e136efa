/** The push-subscription table and the operations of
    server/PushNotifications/pushService.js over it. The mongoose collection
    is the `rows` field of `PushTable`, in insertion order; `webpush`'s
    outcome for each record is the parameter `send`; the clock (`new Date()`)
    is the parameter `now`; whether a database call throws is `dbFails`. */
module PushService {
  import opened Js

  datatype Keys = Keys(p256dh: string, auth: string)

  datatype PushRecord = PushRecord(id: nat, userId: string, endpoint: string, keys: Keys, enabled: bool, updatedAt: nat)

  /** The outcome of `webpush.sendNotification` for one record: it resolves,
      or it throws an error with an optional `statusCode` and a `message`. */
  datatype SendOutcome = Delivered | Rejected(statusCode: Option<int>, message: string)

  /** One entry of `results`; `userId` is only reported by the many-user send,
      `error` only by a failed delivery. */
  datatype Delivery = Delivery(userId: Option<string>, endpoint: string, success: bool, error: Option<string>)

  datatype OpResult = Succeeded | Failed

  datatype SubscribeResult = Subscribed(record: PushRecord) | SubscribeFailed

  datatype SendResult =
    | Report(success: bool, sent: nat, total: nat, results: seq<Delivery>)
    | NoSubscriptions
    | SendError

  predicate SamePair(a: PushRecord, b: PushRecord) {
    a.userId == b.userId && a.endpoint == b.endpoint
  }

  /** No two records share an id or a (userId, endpoint) pair. */
  predicate Distinct(rows: seq<PushRecord>) {
    forall i, j :: 0 <= i < j < |rows| ==> rows[i].id != rows[j].id && !SamePair(rows[i], rows[j])
  }

  /** Expired or unknown subscriptions: the push service answered 410 or 404. */
  predicate Gone(sub: PushRecord, send: PushRecord -> SendOutcome) {
    send(sub).Rejected? && (send(sub).statusCode == Some(410) || send(sub).statusCode == Some(404))
  }

  predicate GoneIn(done: seq<PushRecord>, send: PushRecord -> SendOutcome, id: nat) {
    exists k :: 0 <= k < |done| && done[k].id == id && Gone(done[k], send)
  }

  /** The selections the operations make on the table. */
  datatype Keep =
    | Targeted(ids: set<string>)                                 // find({userId: {$in: ids}, enabled: true})
    | NotGone(done: seq<PushRecord>, send: PushRecord -> SendOutcome)  // what survives the deletions of a send loop
    | NotId(id: nat)                                              // findByIdAndDelete(id)
    | NotPair(userId: string, endpoint: string)                   // findOneAndDelete({userId, endpoint})

  predicate Keeps(k: Keep, r: PushRecord) {
    match k
    case Targeted(ids) => r.enabled && r.userId in ids
    case NotGone(done, send) => !GoneIn(done, send, r.id)
    case NotId(id) => r.id != id
    case NotPair(u, e) => !(r.userId == u && r.endpoint == e)
  }

  /** The records that `k` keeps, in table order. */
  function Select(rows: seq<PushRecord>, k: Keep): (r: seq<PushRecord>)
    ensures |r| <= |rows|
    ensures forall x :: x in r <==> x in rows && Keeps(k, x)
    ensures (forall i :: 0 <= i < |rows| ==> Keeps(k, rows[i])) ==> r == rows
  {
    if rows == [] then []
    else
      assert rows == [rows[0]] + rows[1..];
      (if Keeps(k, rows[0]) then [rows[0]] else []) + Select(rows[1..], k)
  }

  lemma DistinctCons(x: PushRecord, s: seq<PushRecord>)
    requires Distinct(s)
    requires forall y :: y in s ==> y.id != x.id && !SamePair(x, y)
    ensures Distinct([x] + s)
  {
    var t := [x] + s;
    forall i, j | 0 <= i < j < |t| ensures t[i].id != t[j].id && !SamePair(t[i], t[j]) {
      if i == 0 {
        assert t[j] == s[j - 1];
      } else {
        assert t[i] == s[i - 1] && t[j] == s[j - 1];
      }
    }
  }

  lemma {:induction false} SelectDistinct(rows: seq<PushRecord>, k: Keep)
    requires Distinct(rows)
    ensures Distinct(Select(rows, k))
  {
    if rows != [] {
      var rest := rows[1..];
      assert Distinct(rest);
      SelectDistinct(rest, k);
      if Keeps(k, rows[0]) {
        forall y | y in Select(rest, k) ensures y.id != rows[0].id && !SamePair(rows[0], y) {
          var j :| 0 <= j < |rest| && rest[j] == y;
          assert rows[j + 1] == y;
        }
        DistinctCons(rows[0], Select(rest, k));
      }
    }
  }

  lemma GoneInSnoc(done: seq<PushRecord>, sub: PushRecord, send: PushRecord -> SendOutcome, id: nat)
    ensures GoneIn(done + [sub], send, id) <==> GoneIn(done, send, id) || (sub.id == id && Gone(sub, send))
  {
    var d := done + [sub];
    if GoneIn(done, send, id) {
      var k :| 0 <= k < |done| && done[k].id == id && Gone(done[k], send);
      assert d[k] == done[k];
    }
    if sub.id == id && Gone(sub, send) {
      assert d[|done|] == sub;
    }
  }

  /** Selecting from two pieces selects from each. */
  lemma {:induction false} SelectConcat(a: seq<PushRecord>, b: seq<PushRecord>, k: Keep)
    ensures Select(a + b, k) == Select(a, k) + Select(b, k)
    decreases |a|
  {
    if a == [] {
      assert a + b == b;
    } else {
      assert (a + b)[1..] == a[1..] + b;
      SelectConcat(a[1..], b, k);
    }
  }

  /** One more iteration of the send loop: a gone record is deleted by id,
      any other outcome deletes nothing. */
  lemma {:induction false} PruneStep(rows: seq<PushRecord>, done: seq<PushRecord>, sub: PushRecord,
                                     send: PushRecord -> SendOutcome)
    ensures Select(rows, NotGone(done + [sub], send))
            == if Gone(sub, send) then Select(Select(rows, NotGone(done, send)), NotId(sub.id))
               else Select(rows, NotGone(done, send))
  {
    if rows != [] {
      PruneStep(rows[1..], done, sub, send);
      GoneInSnoc(done, sub, send, rows[0].id);
      var before := NotGone(done, send);
      var rest := Select(rows[1..], before);
      var head := if Keeps(before, rows[0]) then [rows[0]] else [];
      assert Select(rows, before) == head + rest;
      if Gone(sub, send) {
        SelectConcat(head, rest, NotId(sub.id));
      }
    }
  }

  lemma PruneNone(rows: seq<PushRecord>, send: PushRecord -> SendOutcome)
    ensures Select(rows, NotGone([], send)) == rows
  {
  }

  lemma PrunePrefix(rows: seq<PushRecord>, subs: seq<PushRecord>, i: nat, send: PushRecord -> SendOutcome)
    requires i < |subs|
    ensures Select(rows, NotGone(subs[..i + 1], send))
            == if Gone(subs[i], send) then Select(Select(rows, NotGone(subs[..i], send)), NotId(subs[i].id))
               else Select(rows, NotGone(subs[..i], send))
  {
    assert subs[..i + 1] == subs[..i] + [subs[i]];
    PruneStep(rows, subs[..i], subs[i], send);
  }

  /** The `results` array of a send loop. */
  function ResultsFor(subs: seq<PushRecord>, send: PushRecord -> SendOutcome, tagUser: bool): (r: seq<Delivery>)
    ensures |r| == |subs|
    ensures forall i :: 0 <= i < |subs| ==>
              && r[i].endpoint == subs[i].endpoint
              && (r[i].userId.Some? <==> tagUser) && (tagUser ==> r[i].userId.value == subs[i].userId)
              && (r[i].success <==> send(subs[i]).Delivered?)
              && (r[i].error.Some? <==> !r[i].success)
              && (!r[i].success ==> r[i].error.value == send(subs[i]).message)
  {
    seq(|subs|, i requires 0 <= i < |subs| => ResultOf(subs[i], send(subs[i]), tagUser))
  }

  /** The entry pushed for one record: `{endpoint, success: true}`, or
      `{endpoint, success: false, error: error.message}`. */
  function ResultOf(sub: PushRecord, outcome: SendOutcome, tagUser: bool): Delivery {
    var tag := if tagUser then Some(sub.userId) else None;
    if outcome.Delivered? then Delivery(tag, sub.endpoint, true, None)
    else Delivery(tag, sub.endpoint, false, Some(outcome.message))
  }

  lemma ResultsSnoc(subs: seq<PushRecord>, i: nat, send: PushRecord -> SendOutcome, tagUser: bool)
    requires i < |subs|
    ensures ResultsFor(subs[..i + 1], send, tagUser)
            == ResultsFor(subs[..i], send, tagUser)
               + [ResultOf(subs[i], send(subs[i]), tagUser)]
  {
  }

  /** `results.filter((r) => r.success).length` */
  function CountSuccess(results: seq<Delivery>): (n: nat)
    ensures n <= |results|
  {
    if results == [] then 0
    else CountSuccess(results[..|results| - 1]) + (if results[|results| - 1].success then 1 else 0)
  }

  /** `success: successCount > 0` holds exactly when some delivery succeeded. */
  lemma {:induction false} CountSuccessPositive(results: seq<Delivery>)
    ensures CountSuccess(results) > 0 <==> exists i :: 0 <= i < |results| && results[i].success
  {
    if results != [] {
      var init := results[..|results| - 1];
      CountSuccessPositive(init);
      if exists i :: 0 <= i < |init| && init[i].success {
        var i :| 0 <= i < |init| && init[i].success;
        assert results[i] == init[i];
      }
      if exists i :: 0 <= i < |results| && results[i].success {
        var i :| 0 <= i < |results| && results[i].success;
        if i < |init| {
          assert init[i] == results[i];
        }
      }
    }
  }

  /** After a send, a record of the table is kept exactly unless it was one
      of the targeted records and the push service answered 410 or 404 for
      it; every other failure keeps the record. */
  lemma SendKeepsExactly(rows: seq<PushRecord>, ids: set<string>, send: PushRecord -> SendOutcome, r: PushRecord)
    requires Distinct(rows) && r in rows
    ensures r in Select(rows, NotGone(Select(rows, Targeted(ids)), send))
            <==> !(r.enabled && r.userId in ids && Gone(r, send))
  {
    var subs := Select(rows, Targeted(ids));
    if GoneIn(subs, send, r.id) {
      var k :| 0 <= k < |subs| && subs[k].id == r.id && Gone(subs[k], send);
      assert subs[k] in rows;
      var i :| 0 <= i < |rows| && rows[i] == r;
      var j :| 0 <= j < |rows| && rows[j] == subs[k];
      assert i == j;
    }
    if r.enabled && r.userId in ids && Gone(r, send) {
      assert r in subs;
      var k :| 0 <= k < |subs| && subs[k] == r;
    }
  }

  /** The first record for (userId, endpoint). */
  function FindPair(rows: seq<PushRecord>, userId: string, endpoint: string): (r: Option<nat>)
    ensures r.Some? ==> r.value < |rows| && rows[r.value].userId == userId && rows[r.value].endpoint == endpoint
    ensures r.None? <==> forall i :: 0 <= i < |rows| ==> !(rows[i].userId == userId && rows[i].endpoint == endpoint)
  {
    if rows == [] then None
    else if rows[0].userId == userId && rows[0].endpoint == endpoint then Some(0)
    else match FindPair(rows[1..], userId, endpoint)
      case None => None
      case Some(k) => Some(k + 1)
  }

  /** `updateMany({userId}, {enabled, updatedAt})` */
  function SetEnabled(rows: seq<PushRecord>, userId: string, enabled: bool, now: nat): (r: seq<PushRecord>)
    ensures |r| == |rows|
    ensures forall i :: 0 <= i < |rows| && rows[i].userId == userId ==>
              r[i] == rows[i].(enabled := enabled, updatedAt := now)
    ensures forall i :: 0 <= i < |rows| && rows[i].userId != userId ==> r[i] == rows[i]
  {
    seq(|rows|, i requires 0 <= i < |rows| =>
      if rows[i].userId == userId then rows[i].(enabled := enabled, updatedAt := now) else rows[i])
  }

  lemma SetEnabledDistinct(rows: seq<PushRecord>, userId: string, enabled: bool, now: nat)
    requires Distinct(rows)
    ensures Distinct(SetEnabled(rows, userId, enabled, now))
  {
    var r := SetEnabled(rows, userId, enabled, now);
    assert forall i :: 0 <= i < |rows| ==> r[i].id == rows[i].id && r[i].userId == rows[i].userId && r[i].endpoint == rows[i].endpoint;
  }

  class PushTable {
    var rows: seq<PushRecord>
    /** The id the next inserted record gets (an ObjectId in the source). */
    var nextId: nat

    ghost predicate Valid()
      reads this
    {
      Distinct(rows) && forall r :: r in rows ==> r.id < nextId
    }

    constructor ()
      ensures Valid() && rows == [] && nextId == 0
    {
      rows, nextId := [], 0;
    }

    /** `subscribeUser`: upsert on (userId, endpoint). Missing `keys` throw a
        TypeError before the database is reached. */
    method Subscribe(userId: string, endpoint: string, keys: Option<Keys>, now: nat, dbFails: bool)
      returns (res: SubscribeResult)
      requires Valid()
      modifies this
      ensures Valid()
      ensures keys.None? || dbFails ==> res == SubscribeFailed && rows == old(rows) && nextId == old(nextId)
      ensures keys.Some? && !dbFails ==>
                match old(FindPair(rows, userId, endpoint))
                case Some(i) =>
                  rows == old(rows)[i := old(rows)[i].(keys := keys.value, enabled := true, updatedAt := now)]
                  && res == Subscribed(rows[i]) && nextId == old(nextId)
                case None =>
                  rows == old(rows) + [PushRecord(old(nextId), userId, endpoint, keys.value, true, now)]
                  && res == Subscribed(rows[|rows| - 1]) && nextId == old(nextId) + 1
    {
      if keys.None? || dbFails {
        res := SubscribeFailed;
        return;
      }
      match FindPair(rows, userId, endpoint)
      case Some(i) =>
        var updated := rows[i].(keys := keys.value, enabled := true, updatedAt := now);
        var before := rows;
        rows := rows[i := updated];
        assert forall j :: 0 <= j < |rows| ==> rows[j].id == before[j].id && rows[j].userId == before[j].userId
                                                && rows[j].endpoint == before[j].endpoint;
        res := Subscribed(updated);
      case None =>
        var created := PushRecord(nextId, userId, endpoint, keys.value, true, now);
        rows := rows + [created];
        nextId := nextId + 1;
        res := Subscribed(created);
    }

    /** `unsubscribeUser`: a truthy endpoint deletes that one record; no
        endpoint (or an empty one) disables all of the user's records. */
    method Unsubscribe(userId: string, endpoint: Option<string>, now: nat, dbFails: bool) returns (res: OpResult)
      requires Valid()
      modifies this
      ensures Valid() && nextId == old(nextId)
      ensures dbFails ==> res == Failed && rows == old(rows)
      ensures !dbFails ==> res == Succeeded
      ensures !dbFails && endpoint.Some? && endpoint.value != "" ==>
                rows == Select(old(rows), NotPair(userId, endpoint.value))
      ensures !dbFails && (endpoint.None? || endpoint.value == "") ==>
                rows == SetEnabled(old(rows), userId, false, now)
    {
      if dbFails {
        res := Failed;
        return;
      }
      if endpoint.Some? && endpoint.value != "" {
        SelectDistinct(rows, NotPair(userId, endpoint.value));
        rows := Select(rows, NotPair(userId, endpoint.value));
      } else {
        SetEnabledDistinct(rows, userId, false, now);
        rows := SetEnabled(rows, userId, false, now);
      }
      res := Succeeded;
    }

    /** `togglePushNotifications` */
    method Toggle(userId: string, enabled: bool, now: nat, dbFails: bool) returns (res: OpResult)
      requires Valid()
      modifies this
      ensures Valid() && nextId == old(nextId)
      ensures dbFails ==> res == Failed && rows == old(rows)
      ensures !dbFails ==> res == Succeeded && rows == SetEnabled(old(rows), userId, enabled, now)
    {
      if dbFails {
        res := Failed;
        return;
      }
      SetEnabledDistinct(rows, userId, enabled, now);
      rows := SetEnabled(rows, userId, enabled, now);
      res := Succeeded;
    }

    /** The `for (const sub of subscriptions)` loop shared by both sends. */
    method Deliver(subs: seq<PushRecord>, send: PushRecord -> SendOutcome, tagUser: bool) returns (results: seq<Delivery>)
      requires Valid()
      modifies this`rows
      ensures Valid()
      ensures results == ResultsFor(subs, send, tagUser)
      ensures rows == Select(old(rows), NotGone(subs, send))
    {
      results := [];
      var i := 0;
      PruneNone(rows, send);
      while i < |subs|
        invariant 0 <= i <= |subs|
        invariant Valid()
        invariant results == ResultsFor(subs[..i], send, tagUser)
        invariant rows == Select(old(rows), NotGone(subs[..i], send))
      {
        var sub := subs[i];
        if send(sub).Delivered? {
          results := results + [ResultOf(sub, send(sub), tagUser)];
        } else {
          if Gone(sub, send) {
            SelectDistinct(rows, NotId(sub.id));
            rows := Select(rows, NotId(sub.id));
          }
          results := results + [ResultOf(sub, send(sub), tagUser)];
        }
        ResultsSnoc(subs, i, send, tagUser);
        PrunePrefix(old(rows), subs, i, send);
        i := i + 1;
      }
      assert subs[..i] == subs;
    }

    /** Both sends: the user's (or users') enabled records, then the loop. */
    method SendTo(ids: set<string>, send: PushRecord -> SendOutcome, tagUser: bool, dbFails: bool) returns (res: SendResult)
      requires Valid()
      modifies this`rows
      ensures Valid()
      ensures dbFails ==> res == SendError && rows == old(rows)
      ensures !dbFails && Select(old(rows), Targeted(ids)) == [] ==> res == NoSubscriptions && rows == old(rows)
      ensures !dbFails && Select(old(rows), Targeted(ids)) != [] ==>
                var subs := Select(old(rows), Targeted(ids));
                var results := ResultsFor(subs, send, tagUser);
                && res == Report(CountSuccess(results) > 0, CountSuccess(results), |subs|, results)
                && rows == Select(old(rows), NotGone(subs, send))
    {
      if dbFails {
        res := SendError;
        return;
      }
      var subs := Select(rows, Targeted(ids));
      if |subs| == 0 {
        res := NoSubscriptions;
        return;
      }
      var results := Deliver(subs, send, tagUser);
      var sent := CountSuccess(results);
      res := Report(sent > 0, sent, |subs|, results);
    }

    /** `sendNotificationToUser` */
    method SendToUser(userId: string, send: PushRecord -> SendOutcome, dbFails: bool) returns (res: SendResult)
      requires Valid()
      modifies this`rows
      ensures Valid()
      ensures dbFails ==> res == SendError && rows == old(rows)
      ensures !dbFails && Select(old(rows), Targeted({userId})) == [] ==> res == NoSubscriptions && rows == old(rows)
      ensures !dbFails && Select(old(rows), Targeted({userId})) != [] ==>
                var subs := Select(old(rows), Targeted({userId}));
                var results := ResultsFor(subs, send, false);
                && res == Report(CountSuccess(results) > 0, CountSuccess(results), |subs|, results)
                && rows == Select(old(rows), NotGone(subs, send))
    {
      res := SendTo({userId}, send, false, dbFails);
    }

    /** `sendNotificationToUsers` */
    method SendToUsers(userIds: seq<string>, send: PushRecord -> SendOutcome, dbFails: bool) returns (res: SendResult)
      requires Valid()
      modifies this`rows
      ensures Valid()
      ensures var ids := set u | u in userIds;
              && (dbFails ==> res == SendError && rows == old(rows))
              && (!dbFails && Select(old(rows), Targeted(ids)) == [] ==> res == NoSubscriptions && rows == old(rows))
              && (!dbFails && Select(old(rows), Targeted(ids)) != [] ==>
                    var subs := Select(old(rows), Targeted(ids));
                    var results := ResultsFor(subs, send, true);
                    && res == Report(CountSuccess(results) > 0, CountSuccess(results), |subs|, results)
                    && rows == Select(old(rows), NotGone(subs, send)))
    {
      var ids := set u | u in userIds;
      res := SendTo(ids, send, true, dbFails);
    }
  }

  /** What a report says about its deliveries: `total` is the number of
      targeted records, there is one result per record, `sent` never
      exceeds `total`, and `success` holds iff some delivery succeeded. */
  lemma ReportFacts(rows: seq<PushRecord>, ids: set<string>, send: PushRecord -> SendOutcome, tagUser: bool)
    ensures var subs := Select(rows, Targeted(ids));
            var results := ResultsFor(subs, send, tagUser);
            && |results| == |subs| && CountSuccess(results) <= |subs|
            && (CountSuccess(results) > 0 <==> exists i :: 0 <= i < |subs| && send(subs[i]).Delivered?)
  {
    var subs := Select(rows, Targeted(ids));
    CountSuccessPositive(ResultsFor(subs, send, tagUser));
  }

  /** A send targets exactly the enabled records of the given users. */
  lemma TargetsEnabledOnly(rows: seq<PushRecord>, ids: set<string>, r: PushRecord)
    ensures r in Select(rows, Targeted(ids)) <==> r in rows && r.enabled && r.userId in ids
  {
  }
}
