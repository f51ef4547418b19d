# FakeChat backend core, modelled in Dafny

FakeChat is an ephemeral group chat. A user creates a room and shares its join
code. Anyone holding the code sends messages to the room. Every 30 minutes a
sweep deletes messages older than an hour, and deletes each room idle for more
than a day together with its messages. Other sessions subscribed to a room get
a web-push notification for each message. The browser turns the server's
VAPID public key from URL-safe base 64 into bytes before subscribing.

This project models the handlers behind those features and proves what they
promise:

- `Schema` holds the documents of the three tables and the argument record of
  a scheduled notification.
- `Database.Db` is the store. It has the three tables, the scheduler's queue
  and the id allocator. Its methods are the store primitives the handlers call
  (insert, patch, delete, schedule). Each primitive states the whole new state:
  the tables, the queue and the allocator.
- `MessageQuery` models the message queries: a small filter language (a
  creation-time cutoff, one room, a set of rooms, a set of ids) and `Where`,
  which keeps the matching messages in table order.
- `Rooms`: `create` and `getByCode`.
- `Messages`: `send` and `list`.
- `Notifications`: `getSubscriptions` and the `subscribe` upsert.
- `Crons`: the `cleanup` sweep. It is proved equal to `Swept`, a one-step
  description of the tables after the sweep.
- `Actions`: the `sendNotification` action. The push service is a function
  parameter that answers whether a delivery succeeded.
- `Base64`: the RFC 4648 section 4 decoder that `atob` applies to well-formed
  input. It comes with an encoder for either alphabet as its reference partner.
- `PushKey`: `urlBase64ToUint8Array` (padding, alphabet rewrite, decoding, byte
  copy). It comes with the round trip for a key published as unpadded URL-safe
  base 64 (RFC 4648 section 5).

The store invariants are `Db.Valid()` and `Db.Consistent()`:

- `Valid()`: every id in use is below the allocator, and messages are in
  insertion order with unique ids.
- `Consistent()`: `Valid()`, plus no message without its room, plus at most one
  subscription per (room, session).

Every handler that changes the store preserves these invariants.

The model follows the handlers as written:

- `send` checks that the room exists and rejects an unknown room ("Room not
  found") before changing anything.
- `cleanup` deletes the idle rooms and their messages but not their
  subscriptions. `Crons.SweptKeepsConsistency` states that the subscriptions
  table is left exactly as it was.
- `getByCode` uses `.unique()`. When two rooms share a code it raises an error
  instead of answering (`Rooms.Lookup.NotUnique`). Room creation does not check
  for a clash (`Rooms.CreateDuplicateCode`).
- `subscribe` does not check that the room exists.

## Model

| member | source | states |
|---|---|---|
| MessageQuery.Where | convex/crons.ts:19-22 | a query returns exactly the messages of the table its filter holds for, and never more messages than the table has |
| MessageQuery.WhereIncreasing | convex/messages.ts:45-49 | a query over a table in insertion order returns its messages in insertion order |
| MessageQuery.WhereAppend | convex/messages.ts:19-24 | inserting a message extends exactly the queries it matches, by that message at the end |
| MessageQuery.WhereTwice | convex/crons.ts:34-42 | deleting one query's messages and then another's is the same as deleting the messages matching either |
| MessageQuery.DeleteSelected | convex/crons.ts:19-26 | deleting, by id, the messages a query collected leaves exactly the messages the query did not select (ids are unique) |
| Database.Db.InsertRoom | convex/rooms.ts:12-17 | the new room gets the allocator's next id, which is not in use, and the allocator advances by one; the rooms table gains exactly that room, nothing else changes, and the id bookkeeping holds |
| Database.Db.PatchLastActivity | convex/messages.ts:27-29 | only the room's `lastActivityAt` changes |
| Database.Db.DeleteRoom | convex/crons.ts:43 | exactly that room leaves the rooms table; nothing else changes |
| Database.Db.InsertMessage | convex/messages.ts:19-24 | the message is appended with the allocator's next id, larger than every id in use, and the allocator advances by one; nothing else changes |
| Database.Db.DeleteMessage | convex/crons.ts:25 | exactly the message with that id leaves the table, the others keep their order; nothing else changes |
| Database.Db.InsertSubscription | convex/notifications.ts:33-37 | the subscription is appended; nothing else changes |
| Database.Db.PatchSubscription | convex/notifications.ts:29-31 | only that record's payload changes |
| Database.Db.RunAfter | convex/messages.ts:32-39 | the notification request is queued after those already queued; the tables do not change |
| Rooms.GetByCode | convex/rooms.ts:22-29 | no room when none has the code; otherwise the room with the code when it is the only one; the `.unique()` error exactly when two rooms share it |
| Rooms.Create | convex/rooms.ts:10-19 | exactly one room is added, with the given name and creator, the generated code and activity `now`, under the allocator's next id, which was not in use, and the allocator advances by one; the returned code is the stored one; messages, subscriptions and other rooms are unchanged; a lookup by a code nobody had finds the new room |
| Rooms.CreateThenGetByCode | convex/rooms.ts:10-29 | after creating a room under a code no room had, `getByCode` of that code returns the new room |
| Rooms.CreateDuplicateCode | convex/rooms.ts:10-29 | after creating a room under a code another room has, `getByCode` of that code fails as not unique |
| Messages.List | convex/messages.ts:43-50 | a message is listed exactly when it is in the table and belongs to the room |
| Messages.ListInInsertionOrder | convex/messages.ts:45-49 | the list is in insertion order |
| Messages.ListAfterAppend | convex/messages.ts:19-24 | inserting a message extends its room's list by that message and leaves every other room's list unchanged |
| Messages.Send | convex/messages.ts:13-40 | fails with RoomNotFound exactly when the room does not exist, and then changes nothing, the allocator included; otherwise appends one message with the given fields and the allocator's next id, advancing the allocator by one, sets the room's `lastActivityAt` to `now` and changes nothing else in the room, leaves other rooms and subscriptions alone, queues a notification carrying the room's name and code, the sender, the content and the sender's session as the one to exclude, extends the room's list by the message and leaves every other room's list unchanged; the store invariants hold afterwards |
| Notifications.GetSubscriptions | convex/notifications.ts:4-11 | returns exactly the subscriptions whose room is the given one |
| Notifications.GetSubscriptionsAppend | convex/notifications.ts:7-10 | the query keeps table order: appending a record extends the room's subscriptions by that record exactly when it belongs to the room |
| Notifications.FindExisting | convex/notifications.ts:22-26 | finds the first record for (room, session), or reports that there is none |
| Notifications.Upsert | convex/notifications.ts:22-38 | the reference table after subscribe: the first record of the pair gets the new payload, or a new record is appended when there is none; the table keeps its size or grows by one (UpsertStores and UpsertFrame state the rest) |
| Notifications.Subscribe | convex/notifications.ts:20-39 | the subscriptions table becomes the upsert of the old one; rooms, messages and the queue are untouched; the store invariants, including one record per pair, hold afterwards |
| Notifications.UpsertStores | convex/notifications.ts:22-38 | after subscribe the pair has a record with the new payload, and it is the pair's only record when records were unique per pair before |
| Notifications.UpsertFrame | convex/notifications.ts:28-37 | when the pair had a record, the table size is unchanged; when it had none, exactly one record is added; every other pair's records keep their place and contents |
| Notifications.UpsertKeepsKeysUnique | convex/notifications.ts:21-38 | subscribe keeps "at most one subscription per (room, session)" |
| Notifications.UpsertOverwrites | convex/notifications.ts:22-38 | subscribing with p1 then p2 gives the same table as subscribing with p2 alone: last write wins |
| Notifications.UpsertIdempotent | convex/notifications.ts:22-38 | repeating an identical subscribe changes nothing |
| Notifications.GetSubscriptionsAfterUpsert | convex/notifications.ts:4-38 | after subscribe, the room's subscriptions include the pair with the new payload, and every record of that session in the room has the new payload |
| Crons.IdleRooms | convex/crons.ts:29-32 | the rooms the sweep collects: those of the table whose `lastActivityAt` is strictly before the cutoff; a subset of the table's rooms |
| Crons.Swept | convex/crons.ts:14-44 | the reference tables after a sweep at `now`: rooms idle before now − 86 400 000 removed, messages created before now − 3 600 000 or in a removed room removed, in table order; no room or message is added and subscriptions are untouched (SweptMessages, SweptRooms and SweptKeepsConsistency state the rest) |
| Crons.DeleteCollected | convex/crons.ts:24-26 | deleting the collected messages one by one leaves exactly the messages the query did not select; rooms, subscriptions and the queue are untouched |
| Crons.DeleteRooms | convex/crons.ts:34-44 | deleting the collected idle rooms one after another removes exactly those rooms and exactly their messages, keeping the order of the rest; subscriptions, the queue and the allocator are untouched |
| Crons.DeleteRoomWithMessages | convex/crons.ts:35-43 | one turn of the room loop: the room's messages, then the room, are deleted, extending the rooms swept so far by that one |
| Crons.Cleanup | convex/crons.ts:11-45 | the tables after the sweep are `Swept` of the tables before, both cutoffs taken from one `now`; the queue and the id allocator are untouched; the store invariants are preserved |
| Crons.SweptMessages | convex/crons.ts:19-42 | a message survives exactly when it was present, was created at or after now − 3 600 000, and its room was not swept |
| Crons.SweptRooms | convex/crons.ts:29-43 | a room survives exactly when its `lastActivityAt` is at or after now − 86 400 000, and then it is unchanged |
| Crons.SweptKeepsConsistency | convex/crons.ts:29-44 | no remaining message belongs to a swept room, whatever its age; no orphan appears; insertion order is kept; subscriptions are left exactly as they were |
| Crons.SweptIdempotent | convex/crons.ts:14-44 | a second sweep at the same `now` deletes nothing |
| Actions.IsSet | convex/actions.ts:23-26 | a key counts as set when it is present and non-empty, as JavaScript's truthiness test on the environment variable; a missing key and the empty string are both unset |
| Actions.BuildPayload | convex/actions.ts:39-43 | the title is `senderName @ roomName`, the url is `/room/` followed by the code, and the body is the prefix of the content of length min(100, its length) |
| Actions.Recipients | convex/actions.ts:45-47 | the reference list of recipients: the subscriptions whose session is not the excluded one, in the order given, never more than there are subscriptions |
| Actions.RecipientsAppend | convex/actions.ts:45-47 | recipients keep the order given: appending a subscription extends them by it exactly when its session is not the excluded one |
| Actions.RecipientsMembers | convex/actions.ts:45-47 | the recipients are exactly the subscriptions of sessions other than the excluded one |
| Actions.Deliveries | convex/actions.ts:45-57 | the reference list of attempts: one per recipient, in recipient order, each with the payload and the push service's answer; as many attempts as recipients |
| Actions.DeliveriesAt | convex/actions.ts:45-57 | one attempt per recipient, in recipient order, each with the same payload and the push service's answer |
| Actions.DeliveriesReachOthersOnly | convex/actions.ts:45-57 | every subscription of another session is attempted, and the excluded session never is |
| Actions.TryRecipients | convex/actions.ts:45-57 | the delivery loop makes exactly the attempts `Deliveries` gives for the recipients: the excluded session is skipped, every other subscription gets the payload in turn, and a failed push does not stop the loop |
| Actions.SendNotification | convex/actions.ts:15-58 | no push is attempted when either VAPID key is unset, or when the push library rejects the keys, which ends the action with its exception (reported exactly then); otherwise the i-th attempt goes to the i-th of the room's subscriptions that are not the sender's, in query order, with the same payload, and a failed push does not stop the later ones; the sender's session is never notified, and every other subscriber of the room is |
| Base64.CharOfCounterparts | lib/notifications.ts:4-6 | the URL-safe and standard characters of one value differ only as `-`/`+` and `_`/`/` |
| Base64.EncodeCounterparts | lib/notifications.ts:4-6 | the URL-safe encoding of some bytes is, position by position, the standard encoding with `+` written `-` and `/` written `_` |
| Base64.DecodeGroup | lib/notifications.ts:8 | a group decodes to one to three bytes, and to three unless it is the last group |
| Base64.Decode | lib/notifications.ts:8 | input whose length is not a multiple of four is rejected; n groups decode to between 3n − 2 and 3n bytes |
| Base64.Atob | lib/notifications.ts:8 | succeeds exactly when decoding does, giving a string of the same length whose character codes are the decoded bytes |
| Base64.DecodeEncodePadded | lib/notifications.ts:8 | decoding the padded standard encoding of any bytes gives those bytes back |
| PushKey.PaddingLength | lib/notifications.ts:3 | the padding count lies in 0..3, brings the length to a multiple of four, and is 0 when the length already is one |
| PushKey.Repeat | lib/notifications.ts:3 | the padding is that many `=` |
| PushKey.Padded | lib/notifications.ts:3-4 | the padded key is the key followed only by `=`, at most three of them, with length a multiple of four; an already aligned key is unchanged |
| PushKey.ReplaceAll | lib/notifications.ts:5-6 | every occurrence of the character is replaced, every other character and the length are unchanged, and none remains |
| PushKey.ReplaceAbsent | lib/notifications.ts:5-6 | replacing a character that does not occur changes nothing |
| PushKey.ToStandardAlphabet | lib/notifications.ts:4-6 | every `-` becomes `+` and every `_` becomes `/`, other characters stay, and neither `-` nor `_` remains |
| PushKey.Normalize | lib/notifications.ts:3-6 | the string handed to `atob`: the key padded with `=` to a multiple of four, at most three added, with no `-` or `_` left |
| PushKey.UrlBase64ToUint8Array | lib/notifications.ts:2-15 | fails exactly when `atob` rejects the padded, rewritten key; otherwise returns a new array holding exactly its decoded bytes |
| PushKey.CharCodes | lib/notifications.ts:9-13 | a new array of the string's length whose i-th element is the code of its i-th character |
| PushKey.NormalizeUrlKey | lib/notifications.ts:3-6 | padding and rewriting an unpadded URL-safe key gives the padded standard encoding of the same bytes |
| PushKey.KeyRoundTrip | lib/notifications.ts:2-15 | a key published as unpadded URL-safe base 64 converts back to exactly its bytes |
| PushKey.NormalizeStandardKey | lib/notifications.ts:3-6 | a key already padded and in the standard alphabet reaches `atob` unchanged |

## Left out

- The React pages, layout and service-worker registration (`app/`, `components/`) are UI. The join-code length check in the home page is a form concern.
- `lib/session.ts` reads `localStorage` and generates UUIDs. A session id is a string parameter here.
- `subscribeUserToPush` calls the browser's service worker and PushManager. Only the key conversion it uses is modelled.
- `generateRoomCode` is not part of this model. Its code is an input to `Rooms.Create`, and nothing is claimed about its alphabet, length or collisions.
- `crons.interval` registration is left out. `Crons.Cleanup` is one run of the sweep; the 30-minute period is not modelled.
- The scheduler is a queue of notification requests (`Db.scheduled`). Running a queued request is a separate call of `Actions.SendNotification`.
- Concurrency is left out. Each mutation runs as one sequential, atomic step on the store.
- `Date.now()` is the parameter `now`. A message's `_creationTime` is taken to equal the `now` that `send` writes into `lastActivityAt`.
- Document ids are opaque strings in the store. Here they come from a counter, so later documents have larger ids.
- The `by_room` index orders a room's documents by creation. Here the order is table order, which is the same for one room.
- Crons.DeleteRooms: visits the idle rooms in an arbitrary order instead of the order of the rooms table. The final tables are the same either way, and that is what the contract states.
- `webpush.setVapidDetails`, `webpush.sendNotification`, `JSON.stringify` and `JSON.parse`, and the console messages are left out. Whether `setVapidDetails` accepts the keys is the function parameter `accepts`; a rejection raises outside the `try`, so the action ends before any push, and `SendNotification` reports it as `keysRejected`. The push is the function parameter `push`, the payload is a record, and a subscription is an opaque string. An exception from parsing or sending is the answer `false`.
- `process.env` is replaced by the key parameters of `Actions.SendNotification`. A key is unset when it is missing or empty.
- Actions.BuildPayload: counts the 100-unit body limit in Dafny characters. JavaScript's `substring` counts UTF-16 code units, and the two differ for characters outside the Basic Multilingual Plane.
- Base64.Decode: models `atob` only on the input it is given here, which is always padded to a multiple of four. It does not model `atob` stripping ASCII whitespace or accepting unpadded input.
- `convex/schema.ts` is left out. The version shown lists neither `lastActivityAt` nor the subscriptions table, so the documents follow the fields the handlers read and write.
- `convex/_generated/api.d.ts` is left out. It is generated type plumbing.
