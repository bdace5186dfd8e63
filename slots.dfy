/**
  The slot record of a room: one grid cell per character of the host's text,
  and the invariant every room keeps over its sequence of slots.
*/
module Slots {
  import opened Wrappers

  /** The blank character: a grid placeholder that nobody can claim. */
  const Blank: char := ' '

  /**
    One cell of the template. `isFilled` and `reservedBy` are the two flags the
    source keeps; `user` and `message` are written by a commit.
  */
  datatype Slot = Slot(
    position: int,
    ch: char,
    user: Option<string>,
    message: Option<string>,
    isFilled: bool,
    reservedBy: Option<string>)

  /**
    Upper-casing of one character of the host's text. Only ASCII letters are
    mapped; the blank is the only character that maps to the blank.
  */
  function Upper(c: char): (u: char)
    ensures u == Blank <==> c == Blank
    ensures 'a' <= c <= 'z' ==> 'A' <= u <= 'Z'
  {
    if 'a' <= c <= 'z' then (c as int - 32) as char else c
  }

  /** The slot a new room gets at index `i` for the (already upper-cased) character `c`. */
  function NewSlot(i: int, c: char): Slot
  {
    Slot(i, c, None, None, c == Blank, None)
  }

  /**
    What holds of slot `s` stored at index `i`: its position is its index; a
    blank is permanently filled, never reserved and never assigned; a filled
    non-blank slot has a user.
  */
  predicate SlotOk(s: Slot, i: int)
  {
    && s.position == i
    && (s.ch == Blank ==> s.isFilled && s.reservedBy == None && s.user == None)
    && (s.isFilled && s.ch != Blank ==> s.user.Some?)
  }

  predicate WellFormed(slots: seq<Slot>)
  {
    forall i :: 0 <= i < |slots| ==> SlotOk(slots[i], i)
  }

  /** Number of filled slots (blanks included, since they are filled). */
  function FilledCount(slots: seq<Slot>): (n: nat)
    ensures n <= |slots|
  {
    if slots == [] then 0
    else (if slots[0].isFilled then 1 else 0) + FilledCount(slots[1..])
  }
}
