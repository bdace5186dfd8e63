/**
  The slot allocator as a specification on values: which slot a reservation
  or a commit picks, and what the slot sequence looks like afterwards. The
  methods of `Rooms.Room` are proved to compute exactly these.
*/
module SlotAllocator {
  import opened Wrappers
  import opened Slots

  /** The slot is reserved by `user` and not yet committed. */
  predicate HeldBy(s: Slot, user: string)
  {
    s.reservedBy == Some(user) && !s.isFilled
  }

  /** The slot is neither committed nor reserved by anyone. */
  predicate Free(s: Slot)
  {
    !s.isFilled && s.reservedBy == None
  }

  /** Index of the first slot satisfying `p`, scanning in ascending order. */
  function First(slots: seq<Slot>, p: Slot -> bool): (r: Option<nat>)
    ensures r.Some? ==> r.value < |slots| && p(slots[r.value])
    ensures forall j :: 0 <= j < |slots| && (r.None? || j < r.value) ==> !p(slots[j])
  {
    if slots == [] then None
    else if p(slots[0]) then Some(0)
    else match First(slots[1..], p)
      case None =>
        assert forall j :: 1 <= j < |slots| ==> slots[j] == slots[1..][j - 1];
        None
      case Some(k) =>
        assert forall j :: 1 <= j < |slots| ==> slots[j] == slots[1..][j - 1];
        Some(k + 1)
  }

  /** The first slot `user` holds without having committed it. */
  function FindHeld(slots: seq<Slot>, user: string): (r: Option<nat>)
    ensures r.Some? ==> r.value < |slots| && HeldBy(slots[r.value], user)
    ensures forall j :: 0 <= j < |slots| && (r.None? || j < r.value) ==> !HeldBy(slots[j], user)
  {
    First(slots, s => HeldBy(s, user))
  }

  /** The first free slot. */
  function FindFree(slots: seq<Slot>): (r: Option<nat>)
    ensures r.Some? ==> r.value < |slots| && Free(slots[r.value])
    ensures forall j :: 0 <= j < |slots| && (r.None? || j < r.value) ==> !Free(slots[j])
  {
    First(slots, Free)
  }

  /**
    The slot a reservation or a commit by `user` acts on: the first slot the
    user holds, and only when there is none, the first free slot.
  */
  function Target(slots: seq<Slot>, user: string): (r: Option<nat>)
    ensures r.Some? ==> r.value < |slots| && (HeldBy(slots[r.value], user) || Free(slots[r.value]))
    ensures r.Some? && HeldBy(slots[r.value], user) ==>
      forall j :: 0 <= j < r.value ==> !HeldBy(slots[j], user)
    ensures r.Some? && !HeldBy(slots[r.value], user) ==>
      (forall j :: 0 <= j < |slots| ==> !HeldBy(slots[j], user)) &&
      (forall j :: 0 <= j < r.value ==> !Free(slots[j]))
    ensures r.None? <==> forall j :: 0 <= j < |slots| ==> !HeldBy(slots[j], user) && !Free(slots[j])
  {
    match FindHeld(slots, user)
    case Some(i) => Some(i)
    case None => FindFree(slots)
  }

  /** When `user` holds nothing, the target is the first free slot. */
  lemma TargetIsFirstFree(slots: seq<Slot>, user: string, i: nat)
    requires i < |slots| && Free(slots[i])
    requires forall j :: 0 <= j < i ==> !Free(slots[j])
    requires forall j :: 0 <= j < |slots| ==> !HeldBy(slots[j], user)
    ensures Target(slots, user) == Some(i)
    ensures Reserved(slots, user) == slots[i := slots[i].(reservedBy := Some(user))]
  {
  }

  /** The slots after `user` reserves: the target (if any) is marked as held by `user`. */
  function Reserved(slots: seq<Slot>, user: string): seq<Slot>
  {
    match Target(slots, user)
    case None => slots
    case Some(i) => slots[i := slots[i].(reservedBy := Some(user))]
  }

  /** The slots after `user` commits with `message`: the target (if any) is filled. */
  function Committed(slots: seq<Slot>, user: string, message: string): seq<Slot>
  {
    match Target(slots, user)
    case None => slots
    case Some(i) => slots[i := slots[i].(user := Some(user), message := Some(message), isFilled := true)]
  }

  /**
    `after` is a possible later state of `before`: same length, positions and
    characters; a committed slot never changes again; a reservation is never
    cleared or handed to someone else.
  */
  predicate Grows(before: seq<Slot>, after: seq<Slot>)
  {
    && |after| == |before|
    && forall i :: 0 <= i < |before| ==>
         && after[i].position == before[i].position
         && after[i].ch == before[i].ch
         && (before[i].isFilled ==> after[i] == before[i])
         && (before[i].reservedBy.Some? ==> after[i].reservedBy == before[i].reservedBy)
  }

  // ---- Reservation ----

  /** A user who already holds an uncommitted slot gets it back and nothing changes. */
  lemma ReserveKeepsHeld(slots: seq<Slot>, user: string)
    requires FindHeld(slots, user).Some?
    ensures Target(slots, user) == FindHeld(slots, user)
    ensures Reserved(slots, user) == slots
  {
    var i := FindHeld(slots, user).value;
    assert slots[i].(reservedBy := Some(user)) == slots[i];
  }

  /** After a reservation, the same user's next reservation or commit targets the same slot. */
  lemma ReserveKeepsTarget(slots: seq<Slot>, user: string)
    ensures Target(Reserved(slots, user), user) == Target(slots, user)
  {
    match Target(slots, user)
    case None =>
    case Some(i) =>
      if FindHeld(slots, user).Some? {
        ReserveKeepsHeld(slots, user);
      } else {
        var after := Reserved(slots, user);
        assert HeldBy(after[i], user);
        assert forall j :: 0 <= j < |after| && j != i ==> after[j] == slots[j];
        var h := FindHeld(after, user);
        assert h == Some(i);
      }
  }

  /**
    Reserving twice is reserving once: the second call picks the same slot,
    hence returns the same character, and changes nothing.
  */
  lemma ReserveIdempotent(slots: seq<Slot>, user: string)
    ensures Target(Reserved(slots, user), user) == Target(slots, user)
    ensures Reserved(Reserved(slots, user), user) == Reserved(slots, user)
    ensures Target(slots, user).Some? ==>
      Reserved(slots, user)[Target(slots, user).value].ch == slots[Target(slots, user).value].ch
  {
    ReserveKeepsTarget(slots, user);
    var after := Reserved(slots, user);
    if Target(slots, user).Some? {
      var i := Target(slots, user).value;
      assert after[i].reservedBy == Some(user);
      assert after[i].(reservedBy := Some(user)) == after[i];
    }
  }

  /**
    A reservation changes nothing but the `reservedBy` field of its target,
    which becomes `user`; it keeps the room invariant and the order of growth.
  */
  lemma ReserveEffect(slots: seq<Slot>, user: string)
    requires WellFormed(slots)
    ensures WellFormed(Reserved(slots, user))
    ensures Grows(slots, Reserved(slots, user))
    ensures |Reserved(slots, user)| == |slots|
    ensures forall j :: 0 <= j < |slots| ==>
      Reserved(slots, user)[j].(reservedBy := slots[j].reservedBy) == slots[j]
    ensures forall j :: 0 <= j < |slots| && Target(slots, user) != Some(j) ==>
      Reserved(slots, user)[j] == slots[j]
    ensures Target(slots, user).Some? ==>
      Reserved(slots, user)[Target(slots, user).value].reservedBy == Some(user)
  {
  }

  // ---- Commit ----

  /**
    A commit changes only its target, which becomes filled with `user` and
    `message`; it keeps the room invariant and the order of growth.
  */
  lemma CommitEffect(slots: seq<Slot>, user: string, message: string)
    requires WellFormed(slots)
    ensures WellFormed(Committed(slots, user, message))
    ensures Grows(slots, Committed(slots, user, message))
    ensures forall j :: 0 <= j < |slots| && Target(slots, user) != Some(j) ==>
      Committed(slots, user, message)[j] == slots[j]
    ensures Target(slots, user).Some? ==>
      var t := Committed(slots, user, message)[Target(slots, user).value];
      t.isFilled && t.user == Some(user) && t.message == Some(message) &&
      t.reservedBy == slots[Target(slots, user).value].reservedBy
  {
  }

  /** Overwriting one slot changes the filled count by the change in that slot's flag. */
  lemma {:induction false} FilledCountUpdate(slots: seq<Slot>, i: nat, s: Slot)
    requires i < |slots|
    ensures FilledCount(slots[i := s]) + (if slots[i].isFilled then 1 else 0)
         == FilledCount(slots) + (if s.isFilled then 1 else 0)
  {
    if i == 0 {
      assert slots[i := s][1..] == slots[1..];
    } else {
      FilledCountUpdate(slots[1..], i - 1, s);
      assert slots[i := s][1..] == slots[1..][i - 1 := s];
    }
  }

  /** A successful commit fills exactly one more slot; a FULL commit fills none. */
  lemma CommitFillsOne(slots: seq<Slot>, user: string, message: string)
    ensures Target(slots, user).Some? ==>
      FilledCount(Committed(slots, user, message)) == FilledCount(slots) + 1
    ensures Target(slots, user).None? ==>
      Committed(slots, user, message) == slots
  {
    if Target(slots, user).Some? {
      var i := Target(slots, user).value;
      FilledCountUpdate(slots, i, slots[i].(user := Some(user), message := Some(message), isFilled := true));
    }
  }

  /** Along any growth the number of filled slots never decreases. */
  lemma {:induction false} GrowsFilledCount(before: seq<Slot>, after: seq<Slot>)
    requires Grows(before, after)
    ensures FilledCount(before) <= FilledCount(after)
  {
    if before != [] {
      assert Grows(before[1..], after[1..]) by {
        forall i | 0 <= i < |before| - 1
          ensures after[1..][i] == after[i + 1] && before[1..][i] == before[i + 1]
        {
        }
      }
      GrowsFilledCount(before[1..], after[1..]);
    }
  }

  /** Growth is transitive, so it describes any sequence of reservations and commits. */
  lemma GrowsTransitive(a: seq<Slot>, b: seq<Slot>, c: seq<Slot>)
    requires Grows(a, b) && Grows(b, c)
    ensures Grows(a, c)
  {
  }

  /**
    Committing without a prior reservation picks the same slot as reserving
    first and then committing; the two end states differ at most in that
    slot's `reservedBy`.
  */
  lemma CommitAfterReserve(slots: seq<Slot>, user: string, message: string)
    ensures |Committed(Reserved(slots, user), user, message)| == |Committed(slots, user, message)|
    ensures forall j :: 0 <= j < |slots| ==>
      Committed(Reserved(slots, user), user, message)[j].(reservedBy := Committed(slots, user, message)[j].reservedBy)
      == Committed(slots, user, message)[j]
  {
    ReserveKeepsTarget(slots, user);
  }

  /**
    A user whose held slot is committed is not treated as holding anything:
    the next commit by the same user goes to a different slot, and succeeds
    whenever another free slot exists. One user can thus commit many slots.
  */
  lemma CommitAgain(slots: seq<Slot>, user: string, message: string, other: nat)
    requires Target(slots, user).Some?
    requires other < |slots| && Target(slots, user) != Some(other) && Free(slots[other])
    ensures Target(Committed(slots, user, message), user).Some?
    ensures Target(Committed(slots, user, message), user) != Target(slots, user)
  {
    var after := Committed(slots, user, message);
    assert after[other] == slots[other];
  }
}
