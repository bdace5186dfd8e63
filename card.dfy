/**
  The layout arithmetic of the card compositor: the number of rows, the side
  of the square canvas, the origin of each photo cell, and which slots get a
  photo pasted. Image decoding, resizing and encoding are not modelled.
*/
module CardCompositor {
  import opened Wrappers
  import opened Slots

  /** Distance between the origins of neighbouring cells. */
  const Pitch: int := 120
  /** Offset of the first cell from the canvas edge. */
  const Margin: int := 25
  /** Side of a pasted photo. */
  const PhotoSide: int := 100
  /** Extra room added to the grid when sizing the canvas. */
  const Padding: int := 50
  /** Smallest canvas side. */
  const MinSide: int := 500

  /** A photo pasted with its top-left corner at (`x`, `y`), for the slot at `position`. */
  datatype Paste = Paste(position: int, x: int, y: int)

  /** The square canvas of side `side` and the pastes made on it, in slot order. */
  datatype Canvas = Canvas(side: int, pastes: seq<Paste>)

  /**
    Integer division with the floor semantics of the source language's `//`
    and `%`: the remainder has the sign of the divisor.
  */
  function DivMod(a: int, b: int): (qr: (int, int))
    requires b != 0
    ensures a == b * qr.0 + qr.1
    ensures b > 0 ==> 0 <= qr.1 < b
    ensures b < 0 ==> b < qr.1 <= 0
  {
    if b > 0 then (a / b, a % b) else ((-a) / (-b), -((-a) % (-b)))
  }

  /** Number of grid rows for `total` slots in `cols` columns. */
  function Rows(total: int, cols: int): int
    requires cols != 0
  {
    DivMod(total, cols).0 + (if DivMod(total, cols).1 != 0 then 1 else 0)
  }

  /** The side of the square canvas: the largest of the minimum, the grid width and the grid height. */
  function CanvasSide(total: int, cols: int): (side: int)
    requires cols != 0
    ensures side >= MinSide
    ensures side >= cols * Pitch + Padding && side >= Rows(total, cols) * Pitch + Padding
    ensures side == MinSide || side == cols * Pitch + Padding || side == Rows(total, cols) * Pitch + Padding
  {
    var width := cols * Pitch + Padding;
    var height := Rows(total, cols) * Pitch + Padding;
    if MinSide >= width && MinSide >= height then MinSide
    else if width >= height then width
    else height
  }

  /** Where the photo of the slot at `position` goes. */
  function PasteAt(position: int, cols: int): Paste
    requires cols != 0
  {
    var (row, col) := DivMod(position, cols);
    Paste(position, Margin + col * Pitch, Margin + row * Pitch)
  }

  /**
    A slot gets its photo drawn when it is not blank, is filled, and has a
    user whose name is not empty.
  */
  predicate Drawn(s: Slot)
  {
    s.ch != Blank && s.isFilled && s.user.Some? && s.user.value != ""
  }

  /**
    The pastes made for `slots`, in slot order; `photos` holds the positions
    whose photo file exists (a missing file makes the paste fail silently).
  */
  function Pastes(slots: seq<Slot>, cols: int, photos: set<int>): seq<Paste>
    requires cols != 0
  {
    if slots == [] then []
    else
      var last := slots[|slots| - 1];
      Pastes(slots[..|slots| - 1], cols, photos)
        + (if Drawn(last) && last.position in photos then [PasteAt(last.position, cols)] else [])
  }

  /** The two photo cells overlap. */
  predicate Overlap(a: Paste, b: Paste)
  {
    a.x < b.x + PhotoSide && b.x < a.x + PhotoSide && a.y < b.y + PhotoSide && b.y < a.y + PhotoSide
  }

  /** The photo cell lies inside a square canvas of side `side`. */
  predicate Inside(p: Paste, side: int)
  {
    0 <= p.x && p.x + PhotoSide <= side && 0 <= p.y && p.y + PhotoSide <= side
  }

  /**
    The compositor's pass over the slots: with zero columns the division
    fails and no card is made; otherwise the canvas side is computed and
    every drawn slot with a photo is pasted at its cell.
  */
  method Compose(slots: seq<Slot>, cols: int, photos: set<int>) returns (card: Option<Canvas>)
    ensures card.None? <==> cols == 0
    ensures card.Some? ==> card.value == Canvas(CanvasSide(|slots|, cols), Pastes(slots, cols, photos))
  {
    if cols == 0 {
      return None;
    }
    var total := |slots|;
    var (q, r) := DivMod(total, cols);
    var rows := q + (if r != 0 then 1 else 0);
    var requiredWidth := cols * Pitch + Padding;
    var requiredHeight := rows * Pitch + Padding;
    var side := MinSide;
    if requiredWidth > side { side := requiredWidth; }
    if requiredHeight > side { side := requiredHeight; }
    var pastes: seq<Paste> := [];
    for i := 0 to |slots|
      invariant pastes == Pastes(slots[..i], cols, photos)
    {
      var slot := slots[i];
      assert slots[..i + 1][..i] == slots[..i];
      if slot.ch == Blank { continue; }
      if slot.isFilled && slot.user.Some? && slot.user.value != "" && slot.position in photos {
        pastes := pastes + [PasteAt(slot.position, cols)];
      }
    }
    assert slots[..|slots|] == slots;
    return Some(Canvas(side, pastes));
  }

  // ---- Layout lemmas ----

  /** A positive number times a natural is at least that number, unless the natural is zero. */
  lemma {:induction false} MulNat(c: int, d: nat)
    requires c > 0
    ensures c * d >= 0
    ensures d >= 1 ==> c * d >= c
  {
    if d > 0 {
      MulNat(c, d - 1);
      assert c * d == c * (d - 1) + c;
    }
  }

  /** For positive `c`, multiplying by `c` preserves and reflects strict order. */
  lemma MulMonotone(c: int, a: int, b: int)
    requires c > 0
    ensures a < b <==> c * a < c * b
  {
    if a < b {
      MulNat(c, b - a);
      assert c * b == c * a + c * (b - a);
    } else {
      MulNat(c, a - b);
      assert c * a == c * b + c * (a - b);
    }
  }

  /** The row count is the ceiling of `total / cols`: the smallest row count whose grid holds every slot. */
  lemma RowsIsCeiling(total: nat, cols: int)
    requires cols > 0
    ensures Rows(total, cols) >= 0
    ensures total <= Rows(total, cols) * cols
    ensures (Rows(total, cols) - 1) * cols < total
  {
    var (q, r) := DivMod(total, cols);
    if q < 0 {
      MulMonotone(cols, q, 0);
    }
    var rows := Rows(total, cols);
    if r != 0 {
      assert rows * cols == q * cols + cols;
    }
    assert (rows - 1) * cols == rows * cols - cols;
  }

  /** Slot `p` of a grid of `total` slots has its cell inside the canvas. */
  lemma CellInside(p: int, total: nat, cols: int)
    requires cols > 0 && 0 <= p < total
    ensures Inside(PasteAt(p, cols), CanvasSide(total, cols))
  {
    var (row, col) := DivMod(p, cols);
    var rows := Rows(total, cols);
    RowsIsCeiling(total, cols);
    if row < 0 {
      MulMonotone(cols, row, -1);
    }
    assert cols * row <= p;
    assert row * cols == cols * row && rows * cols == cols * rows;
    MulMonotone(cols, row, rows);
    assert row <= rows - 1;
  }

  /** Cells of two distinct positions do not overlap. */
  lemma CellsApart(p: int, q: int, cols: int)
    requires cols != 0 && p != q
    ensures !Overlap(PasteAt(p, cols), PasteAt(q, cols))
  {
    var (rp, cp) := DivMod(p, cols);
    var (rq, cq) := DivMod(q, cols);
    if rp == rq {
      assert cp != cq;
    }
  }

  /** A prefix of well-formed slots is well formed. */
  lemma PrefixWellFormed(slots: seq<Slot>, n: nat)
    requires WellFormed(slots) && n <= |slots|
    ensures WellFormed(slots[..n])
  {
    forall i | 0 <= i < n ensures SlotOk(slots[..n][i], i) {
      assert slots[..n][i] == slots[i];
    }
  }

  /**
    Under the room invariant, every paste belongs to a drawn slot whose photo
    exists, sits at that slot's cell, and positions ascend in slot order.
  */
  lemma {:induction false} PastesSound(slots: seq<Slot>, cols: int, photos: set<int>)
    requires cols != 0 && WellFormed(slots)
    ensures forall k :: 0 <= k < |Pastes(slots, cols, photos)| ==>
      var p := Pastes(slots, cols, photos)[k];
      && 0 <= p.position < |slots|
      && p == PasteAt(p.position, cols)
      && Drawn(slots[p.position]) && p.position in photos
    ensures forall k1, k2 :: 0 <= k1 < k2 < |Pastes(slots, cols, photos)| ==>
      Pastes(slots, cols, photos)[k1].position < Pastes(slots, cols, photos)[k2].position
  {
    if slots != [] {
      var n := |slots| - 1;
      var init := slots[..n];
      PrefixWellFormed(slots, n);
      PastesSound(init, cols, photos);
      var front := Pastes(init, cols, photos);
      var all := Pastes(slots, cols, photos);
      assert all[..|front|] == front;
      assert forall i :: 0 <= i < n ==> init[i] == slots[i];
      assert |all| > |front| ==> all[|front|].position == n;
    }
  }

  /** Under the room invariant, a drawn slot whose photo exists has a paste at its cell; `k` is its index. */
  lemma {:induction false} PasteIndex(slots: seq<Slot>, cols: int, photos: set<int>, i: int) returns (k: nat)
    requires cols != 0 && WellFormed(slots)
    requires 0 <= i < |slots| && Drawn(slots[i]) && i in photos
    ensures k < |Pastes(slots, cols, photos)| && Pastes(slots, cols, photos)[k] == PasteAt(i, cols)
  {
    var n := |slots| - 1;
    var init := slots[..n];
    var front := Pastes(init, cols, photos);
    assert Pastes(slots, cols, photos)[..|front|] == front;
    if i < n {
      PrefixWellFormed(slots, n);
      assert init[i] == slots[i];
      k := PasteIndex(init, cols, photos, i);
    } else {
      assert SlotOk(slots[i], i);
      assert Pastes(slots, cols, photos) == front + [PasteAt(i, cols)];
      k := |front|;
    }
  }

  /** Under the room invariant, every drawn slot whose photo exists is pasted at its cell. */
  lemma PastesComplete(slots: seq<Slot>, cols: int, photos: set<int>)
    requires cols != 0 && WellFormed(slots)
    ensures forall i :: 0 <= i < |slots| && Drawn(slots[i]) && i in photos ==>
      PasteAt(i, cols) in Pastes(slots, cols, photos)
  {
    forall i | 0 <= i < |slots| && Drawn(slots[i]) && i in photos
      ensures PasteAt(i, cols) in Pastes(slots, cols, photos)
    {
      var k := PasteIndex(slots, cols, photos, i);
    }
  }

  /** Every pasted photo lies inside the canvas. */
  lemma PastesInside(slots: seq<Slot>, cols: int, photos: set<int>)
    requires cols > 0 && WellFormed(slots)
    ensures forall p :: p in Pastes(slots, cols, photos) ==> Inside(p, CanvasSide(|slots|, cols))
  {
    PastesSound(slots, cols, photos);
    forall p | p in Pastes(slots, cols, photos) ensures Inside(p, CanvasSide(|slots|, cols)) {
      CellInside(p.position, |slots|, cols);
    }
  }

  /** No two pasted photos overlap. */
  lemma PastesDisjoint(slots: seq<Slot>, cols: int, photos: set<int>)
    requires cols != 0 && WellFormed(slots)
    ensures forall k1, k2 :: 0 <= k1 < k2 < |Pastes(slots, cols, photos)| ==>
      !Overlap(Pastes(slots, cols, photos)[k1], Pastes(slots, cols, photos)[k2])
  {
    var all := Pastes(slots, cols, photos);
    PastesSound(slots, cols, photos);
    forall k1, k2 | 0 <= k1 < k2 < |all| ensures !Overlap(all[k1], all[k2]) {
      CellsApart(all[k1].position, all[k2].position, cols);
    }
  }
}
