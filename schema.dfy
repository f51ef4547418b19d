/** The documents of the chat backend's three tables (rooms, messages,
    subscriptions) and the argument record of a scheduled notification. */
module Schema {

  datatype Option<+T> = None | Some(value: T)

  /** Document ids are assigned by the store. In this model they come from one
      counter, so a document inserted later always has a larger id. */
  type Id = nat

  /** Wall-clock time in milliseconds, as `Date.now()` gives it. */
  type Time = int

  datatype Room = Room(name: string, code: string, creatorName: string, lastActivityAt: Time)

  /** `creationTime` is the store's `_creationTime` system field. */
  datatype Message = Message(
    id: Id,
    creationTime: Time,
    roomId: Id,
    senderName: string,
    sessionId: string,
    content: string)

  /** `subscription` is a push endpoint serialised as JSON; it stays opaque here. */
  datatype Subscription = Subscription(roomId: Id, sessionId: string, subscription: string)

  /** What `send` hands to the scheduler for the notification action. */
  datatype NotificationArgs = NotificationArgs(
    roomId: Id,
    roomName: string,
    roomCode: string,
    senderName: string,
    content: string,
    excludeSessionId: string)

  /** The three tables as one value. */
  datatype Tables = Tables(rooms: map<Id, Room>, messages: seq<Message>, subscriptions: seq<Subscription>)

  /** Ids strictly increase along the messages table: it is in insertion order
      and no id occurs twice. */
  ghost predicate Increasing(ms: seq<Message>) {
    forall i, j :: 0 <= i < j < |ms| ==> ms[i].id < ms[j].id
  }

  /** Every message belongs to a room that exists. */
  ghost predicate NoOrphans(rooms: map<Id, Room>, ms: seq<Message>) {
    forall m :: m in ms ==> m.roomId in rooms
  }

  /** At most one subscription per (roomId, sessionId) pair. */
  ghost predicate UniqueKeys(subs: seq<Subscription>) {
    forall i, j :: 0 <= i < j < |subs| ==>
      subs[i].roomId != subs[j].roomId || subs[i].sessionId != subs[j].sessionId
  }

  function IdsOf(ms: seq<Message>): set<Id> {
    set m | m in ms :: m.id
  }

  lemma IncreasingIdentifies(ms: seq<Message>, m: Message, m': Message)
    requires Increasing(ms) && m in ms && m' in ms && m.id == m'.id
    ensures m == m'
  {
    var i :| 0 <= i < |ms| && ms[i] == m;
    var j :| 0 <= j < |ms| && ms[j] == m';
    assert !(i < j) && !(j < i);
  }
}
