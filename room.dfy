/**
  A room: its slot sequence, updated in place by reservations and commits,
  and the column count and opening minute fixed at creation.
*/
module Rooms {
  import opened Wrappers
  import opened Slots
  import opened SlotAllocator

  class Room {
    var slots: seq<Slot>
    const columns: int
    const openTime: int

    ghost predicate Valid()
      reads this
    {
      WellFormed(slots)
    }

    constructor (slots: seq<Slot>, columns: int, openTime: int)
      requires WellFormed(slots)
      ensures Valid()
      ensures this.slots == slots && this.columns == columns && this.openTime == openTime
    {
      this.slots := slots;
      this.columns := columns;
      this.openTime := openTime;
    }

    /**
      The two scans of a reservation: first the slot `user` already holds,
      then the first free slot, which becomes held by `user`. Returns the
      character of the slot picked, or None when the room is full.
    */
    method Reserve(user: string) returns (assignedChar: Option<char>)
      requires Valid()
      modifies this
      ensures Valid()
      ensures slots == Reserved(old(slots), user)
      ensures match Target(old(slots), user)
        case None => assignedChar == None
        case Some(i) => assignedChar == Some(old(slots)[i].ch)
    {
      ReserveEffect(slots, user);
      var i := 0;
      while i < |slots|
        invariant 0 <= i <= |slots|
        invariant forall j :: 0 <= j < i ==> !HeldBy(slots[j], user)
      {
        if slots[i].reservedBy == Some(user) && !slots[i].isFilled {
          ReserveKeepsHeld(slots, user);
          return Some(slots[i].ch);
        }
        i := i + 1;
      }
      i := 0;
      while i < |slots|
        invariant 0 <= i <= |slots|
        invariant forall j :: 0 <= j < i ==> !Free(slots[j])
      {
        if !slots[i].isFilled && slots[i].reservedBy == None {
          slots := slots[i := slots[i].(reservedBy := Some(user))];
          return Some(slots[i].ch);
        }
        i := i + 1;
      }
      return None;
    }

    /**
      The slot selection and update of a commit: the slot `user` holds, or
      else the first free slot, gets `user`, `message` and becomes filled.
      Returns the index of that slot, or None when the room is full.
    */
    method Commit(user: string, message: string) returns (target: Option<nat>)
      requires Valid()
      modifies this
      ensures Valid()
      ensures target == Target(old(slots), user)
      ensures slots == Committed(old(slots), user, message)
    {
      CommitEffect(slots, user, message);
      target := None;
      var i := 0;
      while i < |slots|
        invariant 0 <= i <= |slots|
        invariant forall j :: 0 <= j < i ==> !HeldBy(slots[j], user)
      {
        if slots[i].reservedBy == Some(user) && !slots[i].isFilled {
          target := Some(i);
          break;
        }
        i := i + 1;
      }
      if target == None {
        i := 0;
        while i < |slots|
          invariant 0 <= i <= |slots|
          invariant forall j :: 0 <= j < i ==> !Free(slots[j])
        {
          if !slots[i].isFilled && slots[i].reservedBy == None {
            target := Some(i);
            break;
          }
          i := i + 1;
        }
      }
      if target.Some? {
        var t := target.value;
        slots := slots[t := slots[t].(user := Some(user), message := Some(message), isFilled := true)];
      }
    }
  }
}
