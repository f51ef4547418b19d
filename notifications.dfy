/** Push subscriptions: one per (room, session), kept by an upsert. */
module Notifications {
  import opened Schema
  import opened Database

  predicate HasKey(s: Subscription, roomId: Id, sessionId: string) {
    s.roomId == roomId && s.sessionId == sessionId
  }

  /** The subscriptions of room `roomId`, in table order. */
  function GetSubscriptions(subs: seq<Subscription>, roomId: Id): (r: seq<Subscription>)
    ensures forall s :: s in r <==> s in subs && s.roomId == roomId
    ensures |r| <= |subs|
  {
    if subs == [] then []
    else
      var last := subs[|subs| - 1];
      GetSubscriptions(subs[..|subs| - 1], roomId) + (if last.roomId == roomId then [last] else [])
  }

  /** Appending a record extends the room's subscriptions by it exactly when it
      belongs to the room: the query keeps table order. */
  lemma GetSubscriptionsAppend(subs: seq<Subscription>, s: Subscription, roomId: Id)
    ensures GetSubscriptions(subs + [s], roomId) ==
      GetSubscriptions(subs, roomId) + (if s.roomId == roomId then [s] else [])
  {
    assert (subs + [s])[..|subs|] == subs;
  }

  /** The position of the first subscription for (roomId, sessionId), if any. */
  function FindExisting(subs: seq<Subscription>, roomId: Id, sessionId: string): (r: Option<nat>)
    ensures r.Some? ==>
      && r.value < |subs| && HasKey(subs[r.value], roomId, sessionId)
      && forall k :: 0 <= k < r.value ==> !HasKey(subs[k], roomId, sessionId)
    ensures r.None? ==> forall k :: 0 <= k < |subs| ==> !HasKey(subs[k], roomId, sessionId)
  {
    if subs == [] then None
    else match FindExisting(subs[..|subs| - 1], roomId, sessionId)
      case Some(i) => Some(i)
      case None => if HasKey(subs[|subs| - 1], roomId, sessionId) then Some(|subs| - 1) else None
  }

  /** The subscriptions table after `subscribe(roomId, sessionId, payload)`:
      the existing record's payload is replaced, or a new record is appended. */
  function Upsert(subs: seq<Subscription>, roomId: Id, sessionId: string, payload: string): (r: seq<Subscription>)
    ensures |subs| <= |r| <= |subs| + 1
  {
    match FindExisting(subs, roomId, sessionId)
    case Some(i) => subs[i := subs[i].(subscription := payload)]
    case None => subs + [Subscription(roomId, sessionId, payload)]
  }

  method Subscribe(db: Db, roomId: Id, sessionId: string, subscription: string)
    requires db.Consistent()
    modifies db
    ensures db.Consistent()
    ensures db.subscriptions == Upsert(old(db.subscriptions), roomId, sessionId, subscription)
    ensures db.rooms == old(db.rooms) && db.messages == old(db.messages)
    ensures db.scheduled == old(db.scheduled) && db.nextId == old(db.nextId)
  {
    var existing := FindExisting(db.subscriptions, roomId, sessionId);
    if existing.Some? {
      db.PatchSubscription(existing.value, subscription);
    } else {
      db.InsertSubscription(Subscription(roomId, sessionId, subscription));
    }
    UpsertKeepsKeysUnique(old(db.subscriptions), roomId, sessionId, subscription);
  }

  /** After the upsert the pair's record holds the new payload, and it is the
      pair's only record when the keys were unique before. */
  lemma UpsertStores(subs: seq<Subscription>, roomId: Id, sessionId: string, payload: string)
    ensures Subscription(roomId, sessionId, payload) in Upsert(subs, roomId, sessionId, payload)
    ensures UniqueKeys(subs) ==>
      forall s :: s in Upsert(subs, roomId, sessionId, payload) && HasKey(s, roomId, sessionId) ==>
        s == Subscription(roomId, sessionId, payload)
  {
    var r := Upsert(subs, roomId, sessionId, payload);
    match FindExisting(subs, roomId, sessionId)
    case Some(i) =>
      assert r[i] == Subscription(roomId, sessionId, payload);
      if UniqueKeys(subs) {
        assert forall k :: 0 <= k < |r| && k != i ==> r[k] == subs[k] && !HasKey(subs[k], roomId, sessionId);
        forall s | s in r && HasKey(s, roomId, sessionId) ensures s == Subscription(roomId, sessionId, payload) {
          var k :| 0 <= k < |r| && r[k] == s;
        }
      }
    case None =>
      assert r[|subs|] == Subscription(roomId, sessionId, payload);
      assert forall k :: 0 <= k < |subs| ==> r[k] == subs[k];
      forall s | s in r && HasKey(s, roomId, sessionId) ensures s == Subscription(roomId, sessionId, payload) {
        var k :| 0 <= k < |r| && r[k] == s;
      }
  }

  /** Records of every other pair keep their place and contents; the table grows
      by one exactly when the pair had no record. */
  lemma UpsertFrame(subs: seq<Subscription>, roomId: Id, sessionId: string, payload: string)
    ensures var r := Upsert(subs, roomId, sessionId, payload);
      && (|r| == |subs| <==> exists k :: 0 <= k < |subs| && HasKey(subs[k], roomId, sessionId))
      && (|r| == |subs| + 1 <==> forall k :: 0 <= k < |subs| ==> !HasKey(subs[k], roomId, sessionId))
      && forall k :: 0 <= k < |subs| && !HasKey(subs[k], roomId, sessionId) ==> r[k] == subs[k]
  {
    match FindExisting(subs, roomId, sessionId)
    case Some(i) =>
    case None =>
  }

  /** The upsert keeps "at most one subscription per (roomId, sessionId)". */
  lemma UpsertKeepsKeysUnique(subs: seq<Subscription>, roomId: Id, sessionId: string, payload: string)
    requires UniqueKeys(subs)
    ensures UniqueKeys(Upsert(subs, roomId, sessionId, payload))
  {
    var r := Upsert(subs, roomId, sessionId, payload);
    match FindExisting(subs, roomId, sessionId)
    case Some(i) =>
      forall a, b | 0 <= a < b < |r| ensures r[a].roomId != r[b].roomId || r[a].sessionId != r[b].sessionId {
        assert subs[a].roomId == r[a].roomId && subs[a].sessionId == r[a].sessionId;
        assert subs[b].roomId == r[b].roomId && subs[b].sessionId == r[b].sessionId;
      }
    case None =>
  }

  /** A second subscribe for the same pair overwrites the first one's payload:
      last write wins. */
  lemma {:induction false} UpsertOverwrites(subs: seq<Subscription>, roomId: Id, sessionId: string, p1: string, p2: string)
    ensures Upsert(Upsert(subs, roomId, sessionId, p1), roomId, sessionId, p2) == Upsert(subs, roomId, sessionId, p2)
  {
    var once := Upsert(subs, roomId, sessionId, p1);
    match FindExisting(subs, roomId, sessionId)
    case Some(i) =>
      FindExistingSame(subs, once, roomId, sessionId, i);
    case None =>
      FindExistingSame(subs, once, roomId, sessionId, |subs|);
  }

  /** Two tables that agree on which positions before `i` hold the pair, where
      position `i` of the second holds the pair, find it at the same place. */
  lemma {:induction false} FindExistingSame(subs: seq<Subscription>, other: seq<Subscription>, roomId: Id, sessionId: string, i: nat)
    requires i < |other| && HasKey(other[i], roomId, sessionId)
    requires i <= |subs|
    requires forall k :: 0 <= k < i ==> other[k] == subs[k]
    requires forall k :: 0 <= k < i ==> !HasKey(subs[k], roomId, sessionId)
    ensures FindExisting(other, roomId, sessionId) == Some(i)
  {
  }

  /** Repeating an identical subscribe changes nothing. */
  lemma UpsertIdempotent(subs: seq<Subscription>, roomId: Id, sessionId: string, payload: string)
    ensures Upsert(Upsert(subs, roomId, sessionId, payload), roomId, sessionId, payload) == Upsert(subs, roomId, sessionId, payload)
  {
    UpsertOverwrites(subs, roomId, sessionId, payload, payload);
  }

  /** After the upsert, the room's subscriptions hold the pair exactly once,
      with the new payload. */
  lemma GetSubscriptionsAfterUpsert(subs: seq<Subscription>, roomId: Id, sessionId: string, payload: string)
    requires UniqueKeys(subs)
    ensures var r := GetSubscriptions(Upsert(subs, roomId, sessionId, payload), roomId);
      && Subscription(roomId, sessionId, payload) in r
      && forall s :: s in r && s.sessionId == sessionId ==> s.subscription == payload
  {
    UpsertStores(subs, roomId, sessionId, payload);
  }
}
