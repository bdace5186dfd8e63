/**
  Client-side runs of the registry that only use the contracts of its
  operations: the sequences of replies they prove are what a caller of the
  service observes.
*/
module Scenarios {
  import opened Wrappers
  import opened Slots
  import opened SlotAllocator
  import opened RoomRegistry

  /** The slots of a new room "abc", and the reservations of three users after one another. */
  lemma ReserveSteps()
    ensures var s0 := [NewSlot(0, 'A'), NewSlot(1, 'B'), NewSlot(2, 'C')];
      var s1 := s0[0 := s0[0].(reservedBy := Some("u1"))];
      var s2 := s1[1 := s1[1].(reservedBy := Some("u2"))];
      var s3 := s2[2 := s2[2].(reservedBy := Some("u3"))];
      && Target(s0, "u1") == Some(0) && Reserved(s0, "u1") == s1
      && Target(s1, "u2") == Some(1) && Reserved(s1, "u2") == s2
      && Target(s2, "u3") == Some(2) && Reserved(s2, "u3") == s3
      && Target(s3, "u4") == None
  {
    var s0 := [NewSlot(0, 'A'), NewSlot(1, 'B'), NewSlot(2, 'C')];
    TargetIsFirstFree(s0, "u1", 0);
    var s1 := s0[0 := s0[0].(reservedBy := Some("u1"))];
    TargetIsFirstFree(s1, "u2", 1);
    var s2 := s1[1 := s1[1].(reservedBy := Some("u2"))];
    TargetIsFirstFree(s2, "u3", 2);
    var s3 := s2[2 := s2[2].(reservedBy := Some("u3"))];
    assert forall j :: 0 <= j < 3 ==> !Free(s3[j]) && !HeldBy(s3[j], "u4");
  }

  /**
    A room "ABC" whose card opens later: three users reserving one after the
    other get A, B and C in position order; a fourth is told the room is full.
  */
  method ReserveInOrder() returns (replies: seq<(Status, Option<char>)>)
    ensures replies == [(Success, Some('A')), (Success, Some('B')), (Success, Some('C')), (Full, None)]
  {
    var reg := new Registry();
    reg.CreateRoom("r1", "abc", 3, 100);
    var room := reg.rooms["r1"];
    assert room.slots == [NewSlot(0, 'A'), NewSlot(1, 'B'), NewSlot(2, 'C')];
    ReserveSteps();
    var s1, c1 := reg.ReserveSlot("r1", "u1", 40);
    var s2, c2 := reg.ReserveSlot("r1", "u2", 41);
    var s3, c3 := reg.ReserveSlot("r1", "u3", 42);
    var s4, c4 := reg.ReserveSlot("r1", "u4", 43);
    replies := [(s1, c1), (s2, c2), (s3, c3), (s4, c4)];
  }

  /**
    A room whose opening minute has passed: its status reports it open and a
    reservation is refused; the line breaks of the text are ordinary,
    claimable slots.
  */
  method PastOpening() returns (isOpen: bool, status: Status, newlineFree: bool)
    ensures isOpen && status == TimeOver && newlineFree
  {
    var reg := new Registry();
    reg.CreateRoom("r2", "SHARE\nYOUR\nHEART", 5, 600);
    var view := reg.CheckStatus("r2", 660);
    isOpen := view.value.isOpen;
    var c;
    status, c := reg.ReserveSlot("r2", "guest", 660);
    newlineFree := Free(reg.rooms["r2"].slots[5]);
  }

  /**
    A user reserves, then joins with an upload that is not a data URL (it has
    no comma, so splitting off the header fails before any decoding): the
    join still succeeds, the slot is committed, and no photo is recorded for
    it, whatever the decoding would have done.
  */
  method JoinWithBrokenPhoto(decodes: bool) returns (status: Status, filled: bool, photoKept: bool)
    ensures status == Success && filled && !photoKept
  {
    var reg := new Registry();
    reg.CreateRoom("r3", "HI", 2, 100);
    var s, c := reg.ReserveSlot("r3", "ann", 10);
    status := reg.JoinRoom("r3", "ann", "hello", "not-a-data-url", decodes, 11);
    filled := reg.rooms["r3"].slots[0].isFilled;
    photoKept := ("r3", 0) in reg.photos;
  }
}
