# 1P1T room service — a Dafny model of its slot state machine and card layout

The service runs a "fill in the blank" card. A host creates a room from a
text and a column count. Each character of the upper-cased text becomes a
slot of a grid, and a blank is a fixed placeholder. Guests then reserve a
slot, which holds it under their name. They join with a message and a photo,
which commits the slot. From the room's opening minute on, reservations and
joins are refused. The card compositor pastes every committed photo into a
square canvas at the slot's grid cell.

The model has these modules:

- `Slots`: the slot record, the upper-casing of a character, and the room
  invariant `WellFormed`. That invariant says each position equals its index,
  a blank is filled and never reserved or assigned, and a filled non-blank slot
  has a user.
- `ClosingGate`: `Closed(now, openTime)`, true from the opening minute on.
- `SlotAllocator`: the allocation rules as functions on slot sequences.
  `Target` picks the first slot the user holds uncommitted, or else the first
  free slot. `Reserved` and `Committed` give the state after a reservation or
  a commit. `Grows` says what can change between two states. The lemmas cover
  idempotence, frames, monotonicity and the quirks of the code.
- `Rooms`: the `Room` class. Its slot sequence is updated in place. Its
  `Reserve` and `Commit` methods hold the scanning loops of the source and are
  proved to compute `Reserved`, `Committed` and `Target`.
- `CardCompositor`: the layout arithmetic. It covers floor division as the
  source's `//` and `%` do it, the row count, the square canvas side, cell
  origins, and which slots get a photo pasted. `Compose` is the loop over the
  slots. The lemmas show that every pasted cell lies inside the canvas and
  that no two overlap.
- `RoomRegistry`: the `Registry` class. It holds the rooms by id, the keys of
  the photo files written, and the last card of each room. Its methods are
  the service operations: create, status, reserve, join and make-card.
- `Scenarios`: client runs that use only the registry's contracts.

These are parameters of the model:

- The current time: an integer minute stamp.
- The fresh room id.
- Whether a photo's payload decodes and its file write succeeds.

The model follows the code of `main.py` in points where a reader might
expect otherwise:

- `check_status` reports `is_open` as `now >= open_time`. This is the same
  condition under which reserve and join answer `TIME_OVER`, so `is_open` is
  true when submissions are closed. `open_time` is the moment the card opens.
- The canvas is a square of side `max(500, cols*120+50, rows*120+50)`. It is
  not a rectangle. Cells start 25 pixels from the edge, 120 pixels apart, and
  the photos are 100 by 100.
- A slot is drawn only when it is not blank, is filled, and has a user whose
  name is non-empty.
- Only the space character is blank. A line break in the text becomes an
  ordinary slot that guests can claim.
- A join never clears `reserved_by`. A user whose held slot is already
  filled is not treated as holding anything, so the same user can commit
  several slots.
- Creating a room under an id that is already in use replaces that room.
- With zero columns, making a card fails with a division by zero.

## Model

| member | source | states |
|---|---|---|
| `Slots.Upper` | main.py:55 | upper-casing maps a character to the blank exactly when it is the blank, and lower-case ASCII letters to capitals |
| `Slots.NewSlot` | main.py:56-57 | the slot created at index i for a character has position i, that character, no user, message or reservation, and is filled exactly when the character is the blank |
| `ClosingGate.Closed` | main.py:107 | a room refuses reservations and joins exactly when the current minute is at or after its opening minute, the opening minute included |
| `SlotAllocator.HeldBy` | main.py:111 | a slot counts as held by a user when its reservation names that user and it is not filled |
| `SlotAllocator.Free` | main.py:114 | a slot is free when it is neither filled nor reserved |
| `SlotAllocator.FindHeld` | main.py:110-112 | the result is the lowest position held uncommitted by the user; no slot before it, and none at all when absent, is held by the user |
| `SlotAllocator.FindFree` | main.py:113-114 | the result is the lowest position that is neither filled nor reserved; no earlier slot, and none at all when absent, is free |
| `SlotAllocator.Target` | main.py:129-139 | the slot picked is held by the user or free; a held slot is preferred and is the first one; the first free slot is taken only when the user holds nothing; there is no target exactly when no slot is free or held by the user |
| `SlotAllocator.TargetIsFirstFree` | main.py:113-116 | when the user holds nothing, the target is the first free slot and the reservation marks exactly that slot as held by the user |
| `SlotAllocator.Reserved` | main.py:110-116 | the state after a reservation: the target slot, if any, gets the user as its reservation and nothing else changes |
| `SlotAllocator.Committed` | main.py:129-144 | the state after a commit: the target slot, if any, gets the user and the message and becomes filled, and nothing else changes |
| `SlotAllocator.ReserveKeepsHeld` | main.py:110-112 | when the user already holds an uncommitted slot, the reservation targets it and changes nothing |
| `SlotAllocator.ReserveKeepsTarget` | main.py:110-116 | after a reservation, the same user's next reservation or commit targets the same slot |
| `SlotAllocator.ReserveIdempotent` | main.py:110-116 | a second reservation by the same user picks the same slot, returns the same character and changes nothing |
| `SlotAllocator.ReserveEffect` | main.py:113-116 | a reservation keeps the room invariant, changes only `reservedBy`, and changes it only on the target, which becomes held by the user |
| `SlotAllocator.CommitEffect` | main.py:141-144 | a commit keeps the room invariant and changes only its target, which gets the user and the message, becomes filled, and keeps its `reservedBy` |
| `SlotAllocator.CommitFillsOne` | main.py:141-155 | a successful commit raises the number of filled slots by exactly one; a FULL commit changes nothing |
| `SlotAllocator.GrowsFilledCount` | main.py:110-155 | along any growth (no slot unfilled, no reservation cleared, committed slots frozen) the number of filled slots never decreases |
| `SlotAllocator.GrowsTransitive` | main.py:101-155 | growth composes, so it bounds any sequence of reservations and commits |
| `SlotAllocator.CommitAfterReserve` | main.py:129-144 | committing without a reservation picks the same slot as reserving and then committing; the end states differ at most in `reservedBy` |
| `SlotAllocator.CommitAgain` | main.py:130-144 | after a user's commit, the same user's next commit targets another slot and succeeds while a free slot remains |
| `Rooms.Room.constructor` | main.py:59-63 | the room stores its slots, column count and opening minute unchanged |
| `Rooms.Room.Reserve` | main.py:110-118 | the two scans leave the slots as `Reserved` gives them and return the target's character, or nothing when the room is full |
| `Rooms.Room.Commit` | main.py:129-144 | the two scans find `Target` and leave the slots as `Committed` gives them |
| `CardCompositor.DivMod` | main.py:165 | quotient and remainder recompose the dividend, and the remainder has the divisor's sign, as the source's floor division has it |
| `CardCompositor.Rows` | main.py:163-165 | the row count is the quotient of slots by columns plus one when the remainder is non-zero |
| `CardCompositor.PasteAt` | main.py:185-190 | the cell of a position is 25 plus 120 times its column, and 25 plus 120 times its row, with the column and row from floor division |
| `CardCompositor.Drawn` | main.py:184-192 | a slot is drawn when it is not blank, is filled, and has a user whose name is non-empty |
| `CardCompositor.Pastes` | main.py:183-196 | the pastes are the drawn slots whose photo exists, in slot order, each at its cell |
| `CardCompositor.CanvasSide` | main.py:169-175 | the side is at least 500, at least the grid width and height plus 50, and equal to one of them |
| `CardCompositor.RowsIsCeiling` | main.py:163-165 | for a positive column count the row count is the ceiling of slots over columns |
| `CardCompositor.CellInside` | main.py:185-190 | the 100 by 100 cell of any position within the slot count lies inside the canvas |
| `CardCompositor.CellsApart` | main.py:185-190 | for any non-zero column count, cells of two distinct positions do not overlap |
| `CardCompositor.PastesSound` | main.py:183-196 | each paste is at its slot's cell, belongs to a drawn slot whose photo exists, and positions ascend |
| `CardCompositor.PasteIndex` | main.py:183-196 | a drawn slot whose photo exists has a paste at its own cell, and the index of that paste is returned |
| `CardCompositor.PastesComplete` | main.py:183-196 | every drawn slot whose photo exists is pasted at its own cell |
| `CardCompositor.PastesInside` | main.py:169-196 | every pasted photo lies inside the canvas |
| `CardCompositor.PastesDisjoint` | main.py:183-196 | for any non-zero column count, no two pasted photos overlap |
| `CardCompositor.Compose` | main.py:163-196 | zero columns make no card; otherwise the card has the square side and the pastes of the specification |
| `RoomRegistry.Registry.constructor` | main.py:47 | the registry starts with no rooms, no photos and no cards |
| `RoomRegistry.PhotoSaved` | main.py:145-152 | a photo file is written only when the upload contains a comma and its payload decodes and is written |
| `RoomRegistry.Registry.CreateRoom` | main.py:51-64 | the new room has one slot per character with position i and the upper-cased character, filled exactly when blank, with no user, message or reservation; columns and opening minute are stored as given; other rooms are untouched |
| `RoomRegistry.Registry.CheckStatus` | main.py:66-80 | an unknown room gives nothing; otherwise `isOpen` equals the closing condition of reserve and join, and the slots, columns and opening minute are the room's |
| `RoomRegistry.Registry.ReserveSlot` | main.py:101-118 | an unknown room gives ERROR; from the opening minute on, TIME_OVER with no change; otherwise the slots become `Reserved` and the reply is SUCCESS with the target's character, or FULL with no change |
| `RoomRegistry.Registry.JoinRoom` | main.py:120-155 | ERROR and TIME_OVER as for reserve; otherwise the slots become `Committed`; SUCCESS whenever there is a target, whether or not the photo is saved, and the photo key is recorded only when saved; FULL with no change otherwise |
| `RoomRegistry.Registry.MakeCard` | main.py:158-201 | an unknown room gives no card; zero columns fail; otherwise the card is composed from the room's slots and its saved photos and replaces the room's previous card |
| `Scenarios.ReserveSteps` | main.py:110-118 | on the slots of "abc", reservations by three users target A, B and C in turn and a fourth user has no target |
| `Scenarios.ReserveInOrder` | main.py:101-118 | on "abc", three users get A, B and C in position order and a fourth gets FULL |
| `Scenarios.PastOpening` | main.py:66-108 | once the opening minute has passed, the status says open, a reservation gets TIME_OVER, and a line break of the text is a free slot |
| `Scenarios.JoinWithBrokenPhoto` | main.py:120-155 | a join whose upload is not a data URL (no comma) still answers SUCCESS and fills the slot, and records no photo, whatever the decoding outcome |

## Left out

- The HTTP layer is not modelled: the application, CORS, routing, the page routes and the image and card download routes (main.py:14-22, main.py:82-99).
- Reply messages are not modelled. A reply is reduced to its status, plus the assigned character for a reservation.
- Wall-clock time and the random room id are parameters. Times are integer minute stamps. The source compares `%Y-%m-%dT%H:%M` strings, which agrees with minute order only for well-formed strings; an `open_time` in another format is not modelled.
- Upper-casing covers ASCII letters only. Unicode case mapping, including mappings that change the length of the text, is not modelled.
- The log line printed when saving a photo fails (main.py:151-152) is not modelled. It affects neither the state nor the reply.
- The photo's bytes, base64 decoding and the file write are not modelled. They are reduced to the comma split and a flag for whether the rest succeeds. A saved photo is recorded by its key.
- Image work is not modelled: loading the background or the white fallback, opening, resizing, alpha pasting and JPEG encoding. A card is its canvas side plus the list of pastes made. A photo file that exists but does not decode as an image is counted as pasted.
- The lemmas that bound the layout (`RowsIsCeiling`, `CellInside`, `PastesInside`) assume a positive column count. For a negative count the model computes the source's floor division, but the cells then fall outside the canvas, so nothing is proved about their bounds. Non-overlap (`CellsApart`, `PastesDisjoint`) is proved for any non-zero count.
- Concurrency is not modelled: the source has no locking, and the model is sequential.
- create_open_room.py is not part of this model. It is a one-shot HTTP client with no logic of its own.
