/**
  The room registry and the operations the service exposes on it: creating a
  room, reporting its status, reserving, joining with a message and a photo,
  and composing the result card. The wall clock, the fresh room id and the
  outcome of decoding and writing a photo are parameters.
*/
module RoomRegistry {
  import opened Wrappers
  import opened Slots
  import opened ClosingGate
  import opened SlotAllocator
  import opened Rooms
  import opened CardCompositor

  /** The `status` field of a reserve or join reply. */
  datatype Status = Success | Full | TimeOver | Error

  /** The reply of a status query for an existing room. */
  datatype StatusView = StatusView(isOpen: bool, openTime: int, slots: seq<Slot>, columns: int)

  /** The outcome of composing a card: unknown room, a division by zero columns, or the card made. */
  datatype CardReply = NoRoom | DivisionByZero | Done(card: Canvas)

  /**
    Whether a join writes its photo: the upload must contain a comma separating
    its header from the payload, and `decodes` says whether that payload
    decodes and the file write succeeds.
  */
  predicate PhotoSaved(imageData: string, decodes: bool)
  {
    ',' in imageData && decodes
  }

  class Registry {
    /** The rooms by id. */
    var rooms: map<string, Room>
    /** The (room id, position) keys of the photo files written so far. */
    var photos: set<(string, int)>
    /** The last card composed for each room. */
    var cards: map<string, Canvas>

    ghost predicate Valid()
      reads this, rooms.Values
    {
      forall id :: id in rooms ==> rooms[id].Valid()
    }

    constructor ()
      ensures Valid()
      ensures rooms == map[] && photos == {} && cards == map[]
    {
      rooms := map[];
      photos := {};
      cards := map[];
    }

    /** Positions of the room `id` whose photo file exists. */
    function PhotoPositions(id: string): set<int>
      reads this
    {
      set key | key in photos && key.0 == id :: key.1
    }

    /**
      Creates a room under `id` from the host's text: one slot per character,
      upper-cased, at its index; a blank slot starts filled. An existing room
      under the same id is replaced.
    */
    method CreateRoom(id: string, text: string, columns: int, openTime: int)
      requires Valid()
      modifies this
      ensures Valid()
      ensures id in rooms && fresh(rooms[id]) && rooms == old(rooms)[id := rooms[id]]
      ensures photos == old(photos) && cards == old(cards)
      ensures rooms[id].columns == columns && rooms[id].openTime == openTime
      ensures |rooms[id].slots| == |text|
      ensures forall i :: 0 <= i < |text| ==> rooms[id].slots[i] == NewSlot(i, Upper(text[i]))
    {
      var newSlots: seq<Slot> := [];
      for i := 0 to |text|
        invariant |newSlots| == i
        invariant forall j :: 0 <= j < i ==> newSlots[j] == NewSlot(j, Upper(text[j]))
      {
        var c := Upper(text[i]);
        var isBlocked := c == Blank;
        newSlots := newSlots + [Slot(i, c, None, None, isBlocked, None)];
      }
      var room := new Room(newSlots, columns, openTime);
      rooms := rooms[id := room];
    }

    /**
      The status of room `id` at minute `now`. The flag `isOpen` is true from
      the opening minute on, which is exactly when reservations and joins are
      refused.
    */
    function CheckStatus(id: string, now: int): (r: Option<StatusView>)
      reads this, rooms.Values
      ensures r.Some? <==> id in rooms
      ensures r.Some? ==> r.value.isOpen == Closed(now, rooms[id].openTime)
      ensures r.Some? ==> r.value.slots == rooms[id].slots
      ensures r.Some? ==> r.value.columns == rooms[id].columns && r.value.openTime == rooms[id].openTime
    {
      if id !in rooms then None
      else
        var room := rooms[id];
        Some(StatusView(now >= room.openTime, room.openTime, room.slots, room.columns))
    }

    /**
      Reserves a slot of room `id` for `user` at minute `now`, answering with
      the character of the slot held.
    */
    method ReserveSlot(id: string, user: string, now: int) returns (status: Status, assignedChar: Option<char>)
      requires Valid()
      modifies if id in rooms then {rooms[id]} else {}
      ensures Valid() && rooms == old(rooms)
      ensures id !in rooms ==> status == Error && assignedChar == None
      ensures id in rooms && Closed(now, rooms[id].openTime) ==>
        status == TimeOver && assignedChar == None && rooms[id].slots == old(rooms[id].slots)
      ensures id in rooms && !Closed(now, rooms[id].openTime) ==>
        rooms[id].slots == Reserved(old(rooms[id].slots), user) &&
        match Target(old(rooms[id].slots), user)
        case None => status == Full && assignedChar == None
        case Some(i) => status == Success && assignedChar == Some(old(rooms[id].slots)[i].ch)
    {
      if id !in rooms {
        return Error, None;
      }
      var room := rooms[id];
      if now >= room.openTime {
        return TimeOver, None;
      }
      assignedChar := room.Reserve(user);
      status := if assignedChar.Some? then Success else Full;
    }

    /**
      Commits a slot of room `id` to `user` with `message` at minute `now`,
      then tries to write the photo under the room id and the slot's position.
      A failed photo write is swallowed: the slot stays committed and the
      status is the same.
    */
    method JoinRoom(id: string, user: string, message: string, imageData: string, decodes: bool, now: int)
      returns (status: Status)
      requires Valid()
      modifies this, if id in rooms then {rooms[id]} else {}
      ensures Valid() && rooms == old(rooms) && cards == old(cards)
      ensures id !in rooms ==> status == Error && photos == old(photos)
      ensures id in rooms && Closed(now, rooms[id].openTime) ==>
        status == TimeOver && rooms[id].slots == old(rooms[id].slots) && photos == old(photos)
      ensures id in rooms && !Closed(now, rooms[id].openTime) ==>
        rooms[id].slots == Committed(old(rooms[id].slots), user, message) &&
        match Target(old(rooms[id].slots), user)
        case None => status == Full && photos == old(photos)
        case Some(i) =>
          status == Success &&
          photos == old(photos) + (if PhotoSaved(imageData, decodes) then {(id, i)} else {})
    {
      if id !in rooms {
        return Error;
      }
      var room := rooms[id];
      if now >= room.openTime {
        return TimeOver;
      }
      var target := room.Commit(user, message);
      if target.None? {
        return Full;
      }
      if PhotoSaved(imageData, decodes) {
        photos := photos + {(id, room.slots[target.value].position)};
      }
      return Success;
    }

    /**
      Composes the card of room `id` from its current slots and the photos
      written for it, replacing any card composed before.
    */
    method MakeCard(id: string) returns (reply: CardReply)
      requires Valid()
      modifies this
      ensures Valid() && rooms == old(rooms) && photos == old(photos)
      ensures id !in rooms ==> reply == NoRoom && cards == old(cards)
      ensures id in rooms && rooms[id].columns == 0 ==> reply == DivisionByZero && cards == old(cards)
      ensures id in rooms && rooms[id].columns != 0 ==>
        var room := rooms[id];
        reply == Done(Canvas(CanvasSide(|room.slots|, room.columns), Pastes(room.slots, room.columns, PhotoPositions(id))))
        && cards == old(cards)[id := reply.card]
    {
      if id !in rooms {
        return NoRoom;
      }
      var room := rooms[id];
      var card := Compose(room.slots, room.columns, PhotoPositions(id));
      if card.None? {
        return DivisionByZero;
      }
      cards := cards[id := card.value];
      return Done(card.value);
    }
  }
}
