/** The store every handler works on: the three tables, the scheduler's queue
    and the id allocator. Its methods are the store primitives the handlers
    call (insert, patch, delete, schedule); each changes one table. */
module Database {
  import opened Schema
  import opened MessageQuery

  class Db {
    var rooms: map<Id, Room>
    var messages: seq<Message>
    var subscriptions: seq<Subscription>
    /** Notification requests handed to the scheduler, oldest first. */
    var scheduled: seq<NotificationArgs>
    /** The next id the store hands out. */
    var nextId: Id

    /** Id bookkeeping: every id in use is below `nextId`, and the messages
        table is in insertion order. */
    ghost predicate Valid()
      reads this
    {
      && (forall r :: r in rooms ==> r < nextId)
      && (forall m :: m in messages ==> m.id < nextId)
      && Increasing(messages)
    }

    /** The invariants the handlers keep: no message outlives its room, and a
        (room, session) pair has at most one subscription. */
    ghost predicate Consistent()
      reads this
    {
      && Valid()
      && NoOrphans(rooms, messages)
      && UniqueKeys(subscriptions)
    }

    ghost function Contents(): Tables
      reads this
    {
      Tables(rooms, messages, subscriptions)
    }

    constructor ()
      ensures Consistent()
      ensures rooms == map[] && messages == [] && subscriptions == [] && scheduled == []
      ensures nextId == 0
    {
      rooms, messages, subscriptions, scheduled, nextId := map[], [], [], [], 0;
    }

    method InsertRoom(room: Room) returns (id: Id)
      requires Valid()
      modifies this
      ensures Valid()
      ensures id == old(nextId) && nextId == old(nextId) + 1
      ensures id !in old(rooms) && rooms == old(rooms)[id := room]
      ensures messages == old(messages) && subscriptions == old(subscriptions)
      ensures scheduled == old(scheduled)
    {
      id := nextId;
      rooms := rooms[id := room];
      nextId := nextId + 1;
    }

    method PatchLastActivity(id: Id, at: Time)
      requires id in rooms
      modifies this
      ensures rooms == old(rooms)[id := old(rooms)[id].(lastActivityAt := at)]
      ensures messages == old(messages) && subscriptions == old(subscriptions)
      ensures scheduled == old(scheduled) && nextId == old(nextId)
    {
      rooms := rooms[id := rooms[id].(lastActivityAt := at)];
    }

    method DeleteRoom(id: Id)
      requires id in rooms
      modifies this
      ensures rooms == old(rooms) - {id}
      ensures messages == old(messages) && subscriptions == old(subscriptions)
      ensures scheduled == old(scheduled) && nextId == old(nextId)
    {
      rooms := rooms - {id};
    }

    /** Inserts a message created at `at`; its id is larger than every id in use. */
    method InsertMessage(at: Time, roomId: Id, senderName: string, sessionId: string, content: string)
      returns (id: Id)
      requires Valid()
      modifies this
      ensures Valid()
      ensures id == old(nextId) && nextId == old(nextId) + 1
      ensures messages == old(messages) + [Message(id, at, roomId, senderName, sessionId, content)]
      ensures rooms == old(rooms) && subscriptions == old(subscriptions)
      ensures scheduled == old(scheduled)
    {
      id := nextId;
      messages := messages + [Message(id, at, roomId, senderName, sessionId, content)];
      nextId := nextId + 1;
    }

    /** Deletes the message with id `id`, which must exist. */
    method DeleteMessage(id: Id)
      requires Valid() && id in IdsOf(messages)
      modifies this
      ensures Valid()
      ensures messages == Where(old(messages), Not(IdIn({id})))
      ensures rooms == old(rooms) && subscriptions == old(subscriptions)
      ensures scheduled == old(scheduled) && nextId == old(nextId)
    {
      WhereIncreasing(messages, Not(IdIn({id})));
      messages := Where(messages, Not(IdIn({id})));
    }

    method InsertSubscription(sub: Subscription)
      modifies this
      ensures subscriptions == old(subscriptions) + [sub]
      ensures rooms == old(rooms) && messages == old(messages)
      ensures scheduled == old(scheduled) && nextId == old(nextId)
    {
      subscriptions := subscriptions + [sub];
    }

    /** Replaces the payload of the subscription at position `i`. */
    method PatchSubscription(i: nat, subscription: string)
      requires i < |subscriptions|
      modifies this
      ensures subscriptions == old(subscriptions)[i := old(subscriptions)[i].(subscription := subscription)]
      ensures rooms == old(rooms) && messages == old(messages)
      ensures scheduled == old(scheduled) && nextId == old(nextId)
    {
      subscriptions := subscriptions[i := subscriptions[i].(subscription := subscription)];
    }

    /** Queues a notification request for the scheduler (a delay of 0). */
    method RunAfter(args: NotificationArgs)
      modifies this
      ensures scheduled == old(scheduled) + [args]
      ensures rooms == old(rooms) && messages == old(messages) && subscriptions == old(subscriptions)
      ensures nextId == old(nextId)
    {
      scheduled := scheduled + [args];
    }
  }
}
