/**
  The closing gate. Times are minute stamps; the room's `openTime` is the
  moment its card opens, and from that minute on (inclusive) no reservation
  or commit is accepted.
*/
module ClosingGate {
  predicate Closed(now: int, openTime: int)
  {
    now >= openTime
  }
}
