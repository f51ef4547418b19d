/** Sending a message to a room and listing a room's messages. */
module Messages {
  import opened Schema
  import opened MessageQuery
  import opened Database

  datatype SendResult = Sent | RoomNotFound

  /** The messages of room `roomId`, read from the messages table through its
      by-room index. */
  function List(messages: seq<Message>, roomId: Id): (r: seq<Message>)
    ensures forall m :: m in r <==> m in messages && m.roomId == roomId
  {
    Where(messages, Matching(RoomIs(roomId)))
  }

  /** The list comes back in insertion order. */
  lemma ListInInsertionOrder(messages: seq<Message>, roomId: Id)
    requires Increasing(messages)
    ensures Increasing(List(messages, roomId))
  {
    WhereIncreasing(messages, Matching(RoomIs(roomId)));
  }

  /** Appending a message to the table extends its room's list by that message
      and leaves every other room's list as it was. */
  lemma ListAfterAppend(messages: seq<Message>, m: Message, roomId: Id)
    ensures List(messages + [m], roomId) ==
      if m.roomId == roomId then List(messages, roomId) + [m] else List(messages, roomId)
  {
    WhereAppend(messages, m, Matching(RoomIs(roomId)));
  }

  /** Sends a message: fails when the room does not exist; otherwise appends the
      message, marks the room active as of `now` and queues a notification for
      every other session subscribed to the room. */
  method Send(db: Db, roomId: Id, senderName: string, sessionId: string, content: string, now: Time)
    returns (r: SendResult)
    requires db.Consistent()
    modifies db
    ensures db.Consistent()
    ensures r == RoomNotFound <==> roomId !in old(db.rooms)
    ensures r == RoomNotFound ==>
      && db.rooms == old(db.rooms) && db.messages == old(db.messages)
      && db.subscriptions == old(db.subscriptions) && db.scheduled == old(db.scheduled)
      && db.nextId == old(db.nextId)
    ensures r == Sent ==>
      var room := old(db.rooms)[roomId];
      var msg := Message(old(db.nextId), now, roomId, senderName, sessionId, content);
      && msg.id !in IdsOf(old(db.messages)) && db.nextId == old(db.nextId) + 1
      && db.messages == old(db.messages) + [msg]
      && db.rooms == old(db.rooms)[roomId := room.(lastActivityAt := now)]
      && db.subscriptions == old(db.subscriptions)
      && db.scheduled == old(db.scheduled) + [NotificationArgs(roomId, room.name, room.code, senderName, content, sessionId)]
      && List(db.messages, roomId) == List(old(db.messages), roomId) + [msg]
      && forall other :: other != roomId ==> List(db.messages, other) == List(old(db.messages), other)
  {
    if roomId !in db.rooms {
      return RoomNotFound;
    }
    var room := db.rooms[roomId];
    ghost var before := db.messages;
    var id := db.InsertMessage(now, roomId, senderName, sessionId, content);
    db.PatchLastActivity(roomId, now);
    db.RunAfter(NotificationArgs(roomId, room.name, room.code, senderName, content, sessionId));
    var msg := Message(id, now, roomId, senderName, sessionId, content);
    ListAfterAppend(before, msg, roomId);
    forall other | other != roomId
      ensures List(db.messages, other) == List(before, other)
    {
      ListAfterAppend(before, msg, other);
    }
    return Sent;
  }
}
