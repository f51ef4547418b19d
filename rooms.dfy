/** Room creation and lookup by join code. */
module Rooms {
  import opened Schema
  import opened Database

  /** The outcome of a `.unique()` lookup: no document, the one document, or
      the error `.unique()` raises when several documents match. */
  datatype Lookup = NoRoom | Found(id: Id, room: Room) | NotUnique

  function WithCode(rooms: map<Id, Room>, code: string): set<Id> {
    set id | id in rooms && rooms[id].code == code
  }

  lemma SingletonMembers(s: set<Id>)
    requires |s| == 1
    ensures forall a, b :: a in s && b in s ==> a == b
  {
    var x :| x in s;
    assert s == {x} by {
      assert |s - {x}| == 0;
    }
  }

  /** Looks a room up by code in the rooms table, through the unique code index. */
  function GetByCode(rooms: map<Id, Room>, code: string): (r: Lookup)
    ensures r.NoRoom? <==> forall id :: id in rooms ==> rooms[id].code != code
    ensures r.Found? ==>
      && r.id in rooms && rooms[r.id] == r.room && r.room.code == code
      && forall id :: id in rooms && rooms[id].code == code ==> id == r.id
    ensures r.NotUnique? <==>
      exists a, b :: a in rooms && b in rooms && a != b && rooms[a].code == code && rooms[b].code == code
  {
    var ids := WithCode(rooms, code);
    assert forall id :: id in rooms && rooms[id].code == code ==> id in ids;
    if |ids| == 0 then
      assert ids == {};
      NoRoom
    else if |ids| == 1 then
      SingletonMembers(ids);
      var id :| id in ids;
      Found(id, rooms[id])
    else
      assert exists a, b :: a in ids && b in ids && a != b by {
        var a :| a in ids;
        assert |ids - {a}| > 0;
        var b :| b in ids - {a};
      }
      NotUnique
  }

  /** Inserts a room under the code the generator produced, active as of `now`,
      and returns its id together with that code. */
  method Create(db: Db, name: string, creatorName: string, code: string, now: Time)
    returns (roomId: Id, roomCode: string)
    requires db.Consistent()
    modifies db
    ensures db.Consistent()
    ensures roomCode == code
    ensures roomId == old(db.nextId) && db.nextId == old(db.nextId) + 1
    ensures roomId !in old(db.rooms)
    ensures db.rooms == old(db.rooms)[roomId := Room(name, code, creatorName, now)]
    ensures db.messages == old(db.messages) && db.subscriptions == old(db.subscriptions)
    ensures db.scheduled == old(db.scheduled)
    ensures GetByCode(old(db.rooms), code).NoRoom? ==>
      GetByCode(db.rooms, code) == Found(roomId, Room(name, code, creatorName, now))
  {
    roomId := db.InsertRoom(Room(name, code, creatorName, now));
    roomCode := code;
    if GetByCode(old(db.rooms), code).NoRoom? {
      CreateThenGetByCode(old(db.rooms), roomId, Room(name, code, creatorName, now));
    }
  }

  /** A room created under a code no other room has is what the lookup by that code finds. */
  lemma CreateThenGetByCode(rooms: map<Id, Room>, id: Id, room: Room)
    requires id !in rooms
    requires GetByCode(rooms, room.code).NoRoom?
    ensures GetByCode(rooms[id := room], room.code) == Found(id, room)
  {
    var after := rooms[id := room];
    assert WithCode(after, room.code) == {id};
  }

  /** A room created under a code another room already has makes the lookup by
      that code fail: nothing in room creation prevents the clash. */
  lemma CreateDuplicateCode(rooms: map<Id, Room>, id: Id, room: Room)
    requires id !in rooms
    requires !GetByCode(rooms, room.code).NoRoom?
    ensures GetByCode(rooms[id := room], room.code) == NotUnique
  {
    var other :| other in rooms && rooms[other].code == room.code;
    var after := rooms[id := room];
    assert other in after && id in after && other != id;
    assert after[other].code == room.code && after[id].code == room.code;
  }
}
