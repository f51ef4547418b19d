/** The retention sweep that runs every 30 minutes: messages older than an hour
    go, and so does every room idle for more than a day, together with all of
    its messages. Subscriptions are not touched. */
module Crons {
  import opened Schema
  import opened MessageQuery
  import opened Database

  /** One hour and one day, in milliseconds. */
  const MessageTtl: int := 60 * 60 * 1000
  const RoomTtl: int := 24 * 60 * 60 * 1000

  /** The rooms whose last activity is strictly before `cutoff`. */
  function IdleRooms(rooms: map<Id, Room>, cutoff: Time): (idle: set<Id>)
    ensures idle <= rooms.Keys
  {
    set id | id in rooms && rooms[id].lastActivityAt < cutoff
  }

  /** The tables after a sweep at time `now`, both cutoffs taken from that one `now`. */
  function Swept(t: Tables, now: Time): (r: Tables)
    ensures r.rooms.Keys <= t.rooms.Keys && |r.messages| <= |t.messages|
    ensures r.subscriptions == t.subscriptions
  {
    var messageCutoff := now - MessageTtl;
    var roomCutoff := now - RoomTtl;
    var idle := IdleRooms(t.rooms, roomCutoff);
    Tables(
      t.rooms - idle,
      Where(Where(t.messages, Not(CreatedBefore(messageCutoff))), Not(RoomIn(idle))),
      t.subscriptions)
  }

  /** Deletes, one by one, the messages a query collected from the table. */
  method DeleteCollected(db: Db, collected: seq<Message>, ghost c: Condition)
    requires db.Valid() && collected == Where(db.messages, Matching(c))
    modifies db
    ensures db.Valid()
    ensures db.messages == Where(old(db.messages), Not(c))
    ensures db.rooms == old(db.rooms) && db.subscriptions == old(db.subscriptions)
    ensures db.scheduled == old(db.scheduled) && db.nextId == old(db.nextId)
  {
    ghost var m0 := db.messages;
    WhereIncreasing(m0, Matching(c));
    assert IdsOf(collected[..0]) == {};
    WhereAll(m0, Not(IdIn({})));
    for i := 0 to |collected|
      invariant db.Valid()
      invariant db.messages == Where(m0, Not(IdIn(IdsOf(collected[..i]))))
      invariant db.rooms == old(db.rooms) && db.subscriptions == old(db.subscriptions)
      invariant db.scheduled == old(db.scheduled) && db.nextId == old(db.nextId)
    {
      DeleteStep(m0, collected, c, i);
      db.DeleteMessage(collected[i].id);
    }
    assert collected[..|collected|] == collected;
    DeleteSelected(m0, c);
  }

  /** The i-th collected message is still in the table when its turn comes,
      and deleting it extends the set of deleted ids by its id. */
  lemma DeleteStep(m0: seq<Message>, collected: seq<Message>, c: Condition, i: nat)
    requires Increasing(m0) && collected == Where(m0, Matching(c)) && i < |collected|
    ensures collected[i].id in IdsOf(Where(m0, Not(IdIn(IdsOf(collected[..i])))))
    ensures Where(Where(m0, Not(IdIn(IdsOf(collected[..i])))), Not(IdIn({collected[i].id})))
         == Where(m0, Not(IdIn(IdsOf(collected[..i + 1]))))
  {
    var msg, done := collected[i], IdsOf(collected[..i]);
    WhereIncreasing(m0, Matching(c));
    FreshAmongPrefix(collected, i);
    StillPresent(m0, collected, done, msg);
    IdsOfStep(collected, i);
    WhereTwice(m0, Not(IdIn(done)), Not(IdIn({msg.id})), Not(IdIn(done + {msg.id})));
  }

  /** Along a table in insertion order, the i-th id is none of the ids before it. */
  lemma FreshAmongPrefix(ms: seq<Message>, i: nat)
    requires Increasing(ms) && i < |ms|
    ensures ms[i].id !in IdsOf(ms[..i])
  {
    forall m | m in ms[..i] ensures m.id != ms[i].id {
      var k :| 0 <= k < i && ms[k] == m;
    }
  }

  /** A collected message whose id was not deleted yet is still in the table. */
  lemma StillPresent(m0: seq<Message>, collected: seq<Message>, done: set<Id>, msg: Message)
    requires msg in collected && msg.id !in done
    requires forall m :: m in collected ==> m in m0
    ensures msg.id in IdsOf(Where(m0, Not(IdIn(done))))
  {
    assert msg in Where(m0, Not(IdIn(done)));
  }

  /** The ids of the first i + 1 messages are those of the first i and one more. */
  lemma IdsOfStep(ms: seq<Message>, i: nat)
    requires i < |ms|
    ensures IdsOf(ms[..i + 1]) == IdsOf(ms[..i]) + {ms[i].id}
  {
    assert ms[..i + 1] == ms[..i] + [ms[i]];
  }

  /** The sweep handler. */
  method Cleanup(db: Db, now: Time)
    requires db.Valid()
    modifies db
    ensures db.Valid()
    ensures db.Contents() == Swept(old(db.Contents()), now)
    ensures db.scheduled == old(db.scheduled) && db.nextId == old(db.nextId)
    ensures old(db.Consistent()) ==> db.Consistent()
  {
    var oneHourAgo := now - MessageTtl;
    var oneDayAgo := now - RoomTtl;

    // Messages older than an hour.
    var oldMessages := Where(db.messages, Matching(CreatedBefore(oneHourAgo)));
    DeleteCollected(db, oldMessages, CreatedBefore(oneHourAgo));

    // Rooms idle for a day, each after all of its messages.
    var oldRooms := IdleRooms(db.rooms, oneDayAgo);
    DeleteRooms(db, oldRooms);
    SweptKeepsConsistency(old(db.Contents()), now);
  }

  /** The room loop: deletes every room of `oldRooms`, each after all of its
      messages. */
  method DeleteRooms(db: Db, oldRooms: set<Id>)
    requires db.Valid() && oldRooms <= db.rooms.Keys
    modifies db
    ensures db.Valid()
    ensures db.rooms == old(db.rooms) - oldRooms
    ensures db.messages == Where(old(db.messages), Not(RoomIn(oldRooms)))
    ensures db.subscriptions == old(db.subscriptions)
    ensures db.scheduled == old(db.scheduled) && db.nextId == old(db.nextId)
  {
    ghost var m1 := db.messages;
    var pending := oldRooms;
    WhereAll(m1, Not(RoomIn({})));
    assert oldRooms - pending == {};
    assert old(db.rooms) - {} == old(db.rooms);
    while pending != {}
      invariant pending <= oldRooms
      invariant db.Valid()
      invariant db.rooms == old(db.rooms) - (oldRooms - pending)
      invariant db.messages == Where(m1, Not(RoomIn(oldRooms - pending)))
      invariant db.subscriptions == old(db.subscriptions)
      invariant db.scheduled == old(db.scheduled) && db.nextId == old(db.nextId)
      decreases |pending|
    {
      var room :| room in pending;
      ghost var done := oldRooms - pending;
      DeleteRoomWithMessages(db, room, m1, old(db.rooms), done);
      PendingStep(oldRooms, pending, room);
      pending := pending - {room};
    }
    assert oldRooms - pending == oldRooms;
  }

  /** Taking one room out of the pending ones adds it to the rooms done. */
  lemma PendingStep(oldRooms: set<Id>, pending: set<Id>, room: Id)
    requires pending <= oldRooms && room in pending
    ensures oldRooms - (pending - {room}) == (oldRooms - pending) + {room}
    ensures pending - {room} <= oldRooms && |pending - {room}| < |pending|
  {
  }

  /** One turn of the room loop: deletes the messages of `room`, then the room.
      Before, the rooms in `done` and their messages are gone; after, so are
      `room` and its messages. */
  method DeleteRoomWithMessages(db: Db, room: Id, ghost m1: seq<Message>, ghost rooms0: map<Id, Room>, ghost done: set<Id>)
    requires db.Valid() && room in rooms0 && room !in done
    requires db.rooms == rooms0 - done && db.messages == Where(m1, Not(RoomIn(done)))
    modifies db
    ensures db.Valid()
    ensures db.rooms == rooms0 - (done + {room})
    ensures db.messages == Where(m1, Not(RoomIn(done + {room})))
    ensures db.subscriptions == old(db.subscriptions)
    ensures db.scheduled == old(db.scheduled) && db.nextId == old(db.nextId)
  {
    var roomMsgs := Where(db.messages, Matching(RoomIs(room)));
    DeleteCollected(db, roomMsgs, RoomIs(room));
    RoomStep(m1, rooms0, done, room);
    db.DeleteRoom(room);
  }

  /** Dropping one more room's messages, then the room, is the same as
      sweeping the rooms done so far together with that one. */
  lemma RoomStep(m1: seq<Message>, rooms: map<Id, Room>, done: set<Id>, room: Id)
    ensures Where(Where(m1, Not(RoomIn(done))), Not(RoomIs(room))) == Where(m1, Not(RoomIn(done + {room})))
    ensures (rooms - done) - {room} == rooms - (done + {room})
  {
    WhereTwice(m1, Not(RoomIn(done)), Not(RoomIs(room)), Not(RoomIn(done + {room})));
  }

  /** After a sweep no message is older than the message cutoff, and every
      message at or after the cutoff whose room was not swept is still there. */
  lemma SweptMessages(t: Tables, now: Time, m: Message)
    ensures m in Swept(t, now).messages <==>
      && m in t.messages
      && m.creationTime >= now - MessageTtl
      && m.roomId !in IdleRooms(t.rooms, now - RoomTtl)
  {
    var idle := IdleRooms(t.rooms, now - RoomTtl);
    var kept := Where(t.messages, Not(CreatedBefore(now - MessageTtl)));
    assert m in kept <==> m in t.messages && m.creationTime >= now - MessageTtl;
    assert m in Where(kept, Not(RoomIn(idle))) <==> m in kept && m.roomId !in idle;
  }

  /** The sweep removes exactly the rooms idle since before the room cutoff and
      leaves every other room as it was. */
  lemma SweptRooms(t: Tables, now: Time, id: Id)
    ensures id in Swept(t, now).rooms <==> id in t.rooms && t.rooms[id].lastActivityAt >= now - RoomTtl
    ensures id in Swept(t, now).rooms ==> Swept(t, now).rooms[id] == t.rooms[id]
  {
  }

  /** No remaining message belongs to a swept room, and if no message was
      orphaned before the sweep, none is after it. The subscriptions table is
      left as it was, including the subscriptions of swept rooms. */
  lemma SweptKeepsConsistency(t: Tables, now: Time)
    ensures forall m :: m in Swept(t, now).messages ==> m.roomId !in IdleRooms(t.rooms, now - RoomTtl)
    ensures NoOrphans(t.rooms, t.messages) ==> NoOrphans(Swept(t, now).rooms, Swept(t, now).messages)
    ensures Increasing(t.messages) ==> Increasing(Swept(t, now).messages)
    ensures Swept(t, now).subscriptions == t.subscriptions
  {
    var idle := IdleRooms(t.rooms, now - RoomTtl);
    var kept := Where(t.messages, Not(CreatedBefore(now - MessageTtl)));
    forall m | m in Swept(t, now).messages ensures m.roomId !in idle && m in t.messages {
      assert m in Where(kept, Not(RoomIn(idle)));
    }
    if Increasing(t.messages) {
      WhereIncreasing(t.messages, Not(CreatedBefore(now - MessageTtl)));
      WhereIncreasing(kept, Not(RoomIn(IdleRooms(t.rooms, now - RoomTtl))));
    }
  }

  /** A second sweep at the same time deletes nothing. */
  lemma SweptIdempotent(t: Tables, now: Time)
    ensures Swept(Swept(t, now), now) == Swept(t, now)
  {
    var once := Swept(t, now);
    var messageCutoff, roomCutoff := now - MessageTtl, now - RoomTtl;
    assert IdleRooms(once.rooms, roomCutoff) == {} by {
      forall id | id in once.rooms ensures once.rooms[id].lastActivityAt >= roomCutoff {
        SweptRooms(t, now, id);
      }
    }
    assert once.rooms - {} == once.rooms;
    assert Where(once.messages, Not(CreatedBefore(messageCutoff))) == once.messages by {
      forall m | m in once.messages ensures Holds(Not(CreatedBefore(messageCutoff)), m) {
        SweptMessages(t, now, m);
      }
      WhereAll(once.messages, Not(CreatedBefore(messageCutoff)));
    }
    WhereAll(once.messages, Not(RoomIn({})));
  }
}
