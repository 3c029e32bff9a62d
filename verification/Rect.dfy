/** Integer rectangles (src/common/rect.c).

    The C functions overwrite a struct that is always passed around by value
    elsewhere, so a rectangle is a value here and each function returns the
    rectangle the source leaves behind.
  */
module Rects {

  datatype Rect = Rect(x: int, y: int, width: int, height: int)

  predicate Empty(r: Rect) {
    r.width <= 0 || r.height <= 0
  }

  /** The pixel (x, y) belongs to the half-open rectangle. */
  predicate Contains(r: Rect, x: int, y: int) {
    r.x <= x < r.x + r.width && r.y <= y < r.y + r.height
  }

  /** The extents of `inner` do not stick out of those of `outer`. */
  predicate Within(inner: Rect, outer: Rect) {
    && outer.x <= inner.x && inner.x + inner.width <= outer.x + outer.width
    && outer.y <= inner.y && inner.y + inner.height <= outer.y + outer.height
  }

  function Min(a: int, b: int): int { if a < b then a else b }

  function Max(a: int, b: int): int { if a > b then a else b }

  /** The smallest rectangle around both: it holds both, and any rectangle
      that holds both holds it. */
  function Extend(rect: Rect, min: Rect): (r: Rect)
    ensures Within(rect, r) && Within(min, r)
    ensures forall big: Rect :: Within(rect, big) && Within(min, big) ==> Within(r, big)
  {
    var left := Min(rect.x, min.x);
    var top := Min(rect.y, min.y);
    var right := Max(rect.x + rect.width, min.x + min.width);
    var bottom := Max(rect.y + rect.height, min.y + min.height);
    Rect(left, top, right - left, bottom - top)
  }

  /** Exactly the pixels the two rectangles share, even when sizes are negative. */
  function Constrain(rect: Rect, max: Rect): (r: Rect)
    ensures forall x, y :: Contains(r, x, y) <==> Contains(rect, x, y) && Contains(max, x, y)
    ensures Within(r, max)
    ensures r.x >= rect.x && r.y >= rect.y
  {
    var left := Max(rect.x, max.x);
    var top := Max(rect.y, max.y);
    var right := Min(rect.x + rect.width, max.x + max.width);
    var bottom := Min(rect.y + rect.height, max.y + max.height);
    Rect(left, top, right - left, bottom - top)
  }

  // ---------------------------------------------------------------------
  // expand_to_grid
  // ---------------------------------------------------------------------

  /** The remainder as C computes it: it has the sign of the dividend. */
  function Remainder(a: int, b: int): (r: int)
    requires b > 0
    ensures -b < r < b && (a >= 0 ==> r == a % b)
  {
    if a >= 0 then a % b else -(-a % b)
  }

  /** One axis of the expansion: `start`/`size` grow to a multiple of the cell, by as much
      on either side (an odd one behind) unless that side is stopped by the maximum. */
  function ExpandAxis(cell: int, start: int, size: int, maxStart: int, maxSize: int): (r: (int, int))
    requires cell > 1
    ensures r.1 == Min(size + cell - Remainder(size, cell), maxSize)
    ensures size >= 0 && maxSize >= 0 ==> maxStart <= r.0 && r.0 + r.1 <= maxStart + maxSize
    ensures size >= 0 && maxStart <= start && start + size <= maxStart + maxSize ==>
      r.0 <= start && start + size <= r.0 + r.1
    ensures size >= 0 && maxSize >= 0 ==>
      var before, after := start - r.0, r.0 + r.1 - (start + size);
      && (before > after ==> r.0 + r.1 == maxStart + maxSize)
      && (after > before + 1 ==> r.0 == maxStart)
  {
    var grow := cell - Remainder(size, cell);
    var left := start - grow / 2;
    var right := left + size + grow;
    var maxRight := maxStart + maxSize;
    if right > maxRight then
      var shifted := left - (right - maxRight);
      var l := if shifted < maxStart then maxStart else shifted;
      (l, maxRight - l)
    else if left < maxStart then
      var shifted := right + (maxStart - left);
      var r := if shifted > maxRight then maxRight else shifted;
      (maxStart, r - maxStart)
    else
      (left, right - left)
  }

  /** guac_common_rect_expand_to_grid. The first component is the C return value. Even a
      rectangle that sticks out of its maximum ends up inside. */
  function ExpandToGrid(cell: int, rect: Rect, max: Rect): (r: (int, Rect))
    ensures r.0 == if cell > 0 then 0 else -1
    ensures cell <= 1 ==> r.1 == rect
    ensures cell > 1 && Sized(rect) && Sized(max) ==> Within(r.1, max)
    ensures Sized(rect) && Within(rect, max) ==> Within(rect, r.1)
    ensures cell > 1 && Sized(rect) && r.1.width < max.width ==> r.1.width % cell == 0
    ensures cell > 1 && Sized(rect) && r.1.height < max.height ==> r.1.height % cell == 0
  {
    if cell <= 0 then (-1, rect)
    else if cell == 1 then (0, rect)
    else
      var h := ExpandAxis(cell, rect.x, rect.width, max.x, max.width);
      var v := ExpandAxis(cell, rect.y, rect.height, max.y, max.height);
      assert rect.width >= 0 ==> (rect.width + cell - rect.width % cell) % cell == 0 by {
        if rect.width >= 0 {
          GridMultiple(cell, rect.width);
        }
      }
      assert rect.height >= 0 ==> (rect.height + cell - rect.height % cell) % cell == 0 by {
        if rect.height >= 0 {
          GridMultiple(cell, rect.height);
        }
      }
      (0, Rect(h.0, v.0, h.1, v.1))
  }

  lemma GridMultiple(cell: int, size: int)
    requires cell > 1 && size >= 0
    ensures (size + cell - size % cell) % cell == 0
  {
    var k := size / cell + 1;
    assert size + cell - size % cell == cell * k;
    var q, r := (cell * k) / cell, (cell * k) % cell;
    assert cell * k == cell * q + r;
    SmallMultiple(cell, k - q, r);
  }

  lemma SmallMultiple(cell: int, d: int, r: int)
    requires 0 <= r < cell && cell * d == r
    ensures r == 0
  {
  }

  // ---------------------------------------------------------------------
  // intersects, clip_and_split
  // ---------------------------------------------------------------------

  /** 0: apart, 1: partial, 2: `rect` lies inside `other`. Rectangles that only
      touch along an edge count as intersecting. */
  function Intersects(rect: Rect, other: Rect): (r: int)
    ensures 0 <= r <= 2
    ensures r == 0 ==> forall x, y :: !(Contains(rect, x, y) && Contains(other, x, y))
    ensures r == 2 <==> r != 0 && Within(rect, other)
  {
    if other.x + other.width < rect.x || rect.x + rect.width < other.x ||
       other.y + other.height < rect.y || rect.y + rect.height < other.y then 0
    else if other.x <= rect.x && other.x + other.width >= rect.x + rect.width &&
            other.y <= rect.y && other.y + other.height >= rect.y + rect.height then 2
    else 1
  }

  /** The answer 0 is exact only in one direction: two rectangles can be reported
      as intersecting without sharing a pixel, precisely when they touch. */
  lemma IntersectsIsClosed(rect: Rect, other: Rect)
    requires !Empty(rect) && !Empty(other)
    ensures (exists x, y :: Contains(rect, x, y) && Contains(other, x, y)) <==>
            Intersects(rect, other) != 0 && !Touches(rect, other)
  {
    var common := Constrain(rect, other);
    if Intersects(rect, other) != 0 && !Touches(rect, other) {
      assert Contains(common, common.x, common.y);
    }
  }

  predicate Touches(rect: Rect, other: Rect) {
    || rect.x + rect.width == other.x || other.x + other.width == rect.x
    || rect.y + rect.height == other.y || other.y + other.height == rect.y
  }

  /** Result of one call: `Done` is the return value 0. */
  datatype Cut = Done | Piece(rest: Rect, piece: Rect)

  function ClipAndSplit(rect: Rect, hole: Rect): Cut {
    var right := rect.x + rect.width;
    var bottom := rect.y + rect.height;
    var holeRight := hole.x + hole.width;
    var holeBottom := hole.y + hole.height;
    if Intersects(rect, hole) == 0 then
      Done
    else if rect.y < hole.y then
      Piece(Rect(rect.x, hole.y, rect.width, bottom - hole.y),
            Rect(rect.x, rect.y, rect.width, hole.y - rect.y))
    else if rect.x < hole.x then
      Piece(Rect(hole.x, rect.y, right - hole.x, rect.height),
            Rect(rect.x, rect.y, hole.x - rect.x, rect.height))
    else if bottom > holeBottom then
      Piece(Rect(rect.x, rect.y, rect.width, holeBottom - rect.y),
            Rect(rect.x, holeBottom, rect.width, bottom - holeBottom))
    else if right > holeRight then
      Piece(Rect(rect.x, rect.y, holeRight - rect.x, rect.height),
            Rect(holeRight, rect.y, right - holeRight, rect.height))
    else
      Done
  }

  function One(b: bool): nat { if b then 1 else 0 }

  /** How many sides of `rect` stick out of `hole`. */
  function SidesOut(rect: Rect, hole: Rect): nat {
    One(rect.y < hole.y) + One(rect.x < hole.x) +
    One(rect.y + rect.height > hole.y + hole.height) +
    One(rect.x + rect.width > hole.x + hole.width)
  }

  predicate Sized(r: Rect) {
    r.width >= 0 && r.height >= 0
  }

  /** One call cuts `rect` in two along one side of the hole. */
  lemma CutStep(rect: Rect, hole: Rect)
    requires Sized(rect) && Sized(hole)
    ensures var c := ClipAndSplit(rect, hole);
      c.Piece? ==>
        && Sized(c.rest) && Sized(c.piece)
        && SidesOut(c.rest, hole) < SidesOut(rect, hole)
        && Intersects(c.rest, hole) != 0
        && (forall x, y :: One(Contains(rect, x, y)) == One(Contains(c.piece, x, y)) + One(Contains(c.rest, x, y)))
        && (forall x, y :: Contains(c.piece, x, y) ==> !Contains(hole, x, y))
  {
  }

  /** A piece is all that sticks out above the hole, or else to the left, or else below, or
      else to the right of it; nothing is cut off exactly if nothing sticks out or the
      hole is apart. */
  lemma CutOrder(rect: Rect, hole: Rect, x: int, y: int)
    requires Sized(rect) && Sized(hole)
    ensures ClipAndSplit(rect, hole).Done? <==> Intersects(rect, hole) == 0 || Within(rect, hole)
    ensures var c := ClipAndSplit(rect, hole);
      c.Piece? ==>
        (Contains(c.piece, x, y) <==>
           Contains(rect, x, y) &&
           if rect.y < hole.y then y < hole.y
           else if rect.x < hole.x then x < hole.x
           else if rect.y + rect.height > hole.y + hole.height then y >= hole.y + hole.height
           else x >= hole.x + hole.width)
  {
  }

  /** The calling protocol of the header: call until it returns zero. */
  function CutAll(rect: Rect, hole: Rect): (r: (seq<Rect>, Rect))
    requires Sized(rect) && Sized(hole)
    decreases SidesOut(rect, hole)
  {
    var c := ClipAndSplit(rect, hole);
    if c.Done? then ([], rect)
    else
      CutStep(rect, hole);
      var later := CutAll(c.rest, hole);
      ([c.piece] + later.0, later.1)
  }

  /** How many of the pieces hold the pixel. */
  function Hits(pieces: seq<Rect>, x: int, y: int): nat {
    if pieces == [] then 0 else One(Contains(pieces[0], x, y)) + Hits(pieces[1..], x, y)
  }

  /** At most four calls cut anything; the pieces and the remainder partition the
      original rectangle; the remainder is exactly the part under the hole. */
  lemma {:induction false} CutAllPartitions(rect: Rect, hole: Rect, x: int, y: int)
    requires Sized(rect) && Sized(hole)
    ensures var (pieces, rest) := CutAll(rect, hole);
      && |pieces| <= SidesOut(rect, hole) <= 4
      && Hits(pieces, x, y) + One(Contains(rest, x, y)) == One(Contains(rect, x, y))
      && (Hits(pieces, x, y) > 0 ==> !Contains(hole, x, y))
      && (Intersects(rect, hole) != 0 ==>
            (Contains(rest, x, y) <==> Contains(rect, x, y) && Contains(hole, x, y)))
      && (Intersects(rect, hole) == 0 ==> pieces == [] && rest == rect)
    decreases SidesOut(rect, hole)
  {
    var c := ClipAndSplit(rect, hole);
    if c.Piece? {
      CutStep(rect, hole);
      CutAllPartitions(c.rest, hole, x, y);
    }
  }
}
