/** Surfaces that mirror their contents to a remote layer (src/common/surface.c).

    Drawing changes the backing buffer at once; what is sent is deferred through a
    dirty rectangle and a bounded queue of rectangles. The class invariant says
    that every pixel where the remote layer is behind is covered by one of them.
  */
module Surfaces {
  import opened Rects
  import opened Pixels

  const QUEUE_SIZE := 256

  datatype BitmapRect = BitmapRect(flushed: bool, rect: Rect)

  /** Bounding box of the pixels changed so far, relative to the drawn rectangle. */
  datatype Extent = Extent(minX: int, minY: int, maxX: int, maxY: int) {
    predicate Has(x: int, y: int) {
      minX <= x <= maxX && minY <= y <= maxY
    }

    predicate InBox(w: int, h: int) {
      0 <= minX && 0 <= minY && maxX < w && maxY < h
    }

    predicate Inside(e: Extent) {
      e.minX <= minX && e.minY <= minY && maxX <= e.maxX && maxY <= e.maxY
    }

    function Include(x: int, y: int): (e: Extent)
      ensures e.Has(x, y) && this.Inside(e)
    {
      Extent(Min(minX, x), Min(minY, y), Max(maxX, x), Max(maxY, y))
    }
  }

  /** The drawn rectangle cut down to the changed pixels. */
  function Restrict(rect: Rect, e: Extent): (r: Rect)
    ensures forall x, y :: Contains(r, x, y) <==> e.Has(x - rect.x, y - rect.y)
  {
    if e.maxX >= e.minX && e.maxY >= e.minY then
      Rect(rect.x + e.minX, rect.y + e.minY, e.maxX - e.minX + 1, e.maxY - e.minY + 1)
    else
      Rect(rect.x, rect.y, 0, 0)
  }

  /** The pixel __guac_common_surface_put computes from source and destination. */
  function PutFunction(rgbOnly: bool): (Color, Color) -> Color {
    if rgbOnly then (src, _) => WithoutAlpha(src) else (src, dst) => ArgbBlend(dst, src)
  }

  lemma PutComposes(rgbOnly: bool)
    ensures forall src, dst {:trigger PutFunction(rgbOnly)(src, dst)} ::
      Composed(rgbOnly, src, dst, PutFunction(rgbOnly)(src, dst))
  {
    forall src, dst
      ensures Composed(rgbOnly, src, dst, PutFunction(rgbOnly)(src, dst))
    {
      if rgbOnly {
        WithoutAlphaKeeps(src);
      } else {
        BlendComposes(src, dst);
      }
    }
  }

  function PixelAt(src: Image, x: int, y: int): Color
    requires src.Valid() && Contains(src.Area(), x, y)
  {
    src.rows[y][x]
  }

  /** The pixel __guac_common_surface_fill_mask leaves: filled unless the mask is
      fully transparent there. */
  function MaskPixel(src: Image, sx: int, sy: int, color: Color, dst: Color): Color
    requires src.Valid() && Contains(src.Area(), sx, sy)
  {
    if PixelAt(src, sx, sy) & 0xFF000000 != 0 then color else dst
  }

  // The pixel each public operation leaves at (px, py) of the buffer.

  function DrawnPixel(f: (Color, Color) -> Color, clip: Rect, x: int, y: int, src: Image,
                      px: int, py: int, before: Color): Color
    requires src.Valid()
  {
    if Contains(clip, px, py) && Contains(Rect(x, y, src.width, src.height), px, py)
    then f(PixelAt(src, px - x, py - y), before)
    else before
  }

  function PaintedPixel(clip: Rect, x: int, y: int, src: Image, color: Color, px: int, py: int, before: Color): Color
    requires src.Valid()
  {
    if Contains(clip, px, py) && Contains(Rect(x, y, src.width, src.height), px, py)
    then MaskPixel(src, px - x, py - y, color, before)
    else before
  }

  function FilledPixel(clip: Rect, rect: Rect, color: Color, px: int, py: int, before: Color): Color {
    if Contains(clip, px, py) && Contains(rect, px, py) then color else before
  }

  /** The destination of a copy of `source` to (dx, dy), after both ends are clipped. */
  function Moved(bounds: Rect, clip: Rect, source: Rect, dx: int, dy: int): (r: Rect)
    ensures forall x, y {:trigger Contains(r, x, y)} :: Contains(r, x, y) <==>
      && Contains(clip, x, y) && Contains(Rect(dx, dy, source.width, source.height), x, y)
      && Contains(bounds, x + source.x - dx, y + source.y - dy)
  {
    var s := Constrain(source, bounds);
    Constrain(Rect(dx + s.x - source.x, dy + s.y - source.y, s.width, s.height), clip)
  }

  /** GUAC_TRANSFER_BINARY_SRC. */
  function KeepSource(src: Color, dst: Color): Color {
    src
  }

  lemma ArgbOpaque(red: bv32, green: bv32, blue: bv32)
    ensures Opaque(Argb(0xFF, red, green, blue))
  {
  }

  /** Position `k` of `n` counted in the direction of the copy. */
  function Turn(forward: bool, n: int, k: int): int {
    if forward then k else n - 1 - k
  }

  /** Order of the queue: top to bottom, left to right, wider first, shorter first. */
  predicate Before(a: Rect, b: Rect) {
    if a.y != b.y then a.y < b.y
    else if a.x != b.x then a.x < b.x
    else if a.width != b.width then a.width > b.width
    else a.height <= b.height
  }

  /** This orders all rectangles, and what decides is the first of top, left, width and
      height in which two of them differ. */
  lemma BeforeOrders(a: Rect, b: Rect, c: Rect)
    ensures Before(a, b) || Before(b, a)
    ensures Before(a, b) && Before(b, c) ==> Before(a, c)
    ensures a.y < b.y ==> !Before(b, a)
    ensures a.y == b.y && a.x < b.x ==> !Before(b, a)
    ensures a.y == b.y && a.x == b.x && a.width > b.width ==> !Before(b, a)
    ensures a.y == b.y && a.x == b.x && a.width == b.width && a.height < b.height ==> !Before(b, a)
  {
  }

  predicate SortedQueue(s: seq<BitmapRect>) {
    forall i, j :: 0 <= i < j < |s| ==> Before(s[i].rect, s[j].rect)
  }

  function Insert(e: BitmapRect, s: seq<BitmapRect>): (r: seq<BitmapRect>)
    ensures multiset(r) == multiset(s) + multiset{e}
  {
    if s == [] || Before(e.rect, s[0].rect) then [e] + s
    else
      assert s == [s[0]] + s[1..];
      [s[0]] + Insert(e, s[1..])
  }

  lemma {:induction false} InsertSorts(e: BitmapRect, s: seq<BitmapRect>)
    requires SortedQueue(s)
    ensures SortedQueue(Insert(e, s))
  {
    if s != [] && !Before(e.rect, s[0].rect) {
      var rest := Insert(e, s[1..]);
      InsertSorts(e, s[1..]);
      forall b | b in rest
        ensures Before(s[0].rect, b.rect)
      {
        assert b in multiset(rest);
        assert b == e || b in s[1..];
      }
    }
  }

  /** What qsort leaves in the queue. */
  function SortRects(s: seq<BitmapRect>): (r: seq<BitmapRect>)
    ensures multiset(r) == multiset(s)
    ensures SortedQueue(r)
    ensures |r| == |s|
  {
    if s == [] then []
    else
      assert s == [s[0]] + s[1..];
      var r := Insert(s[0], SortRects(s[1..]));
      InsertSorts(s[0], SortRects(s[1..]));
      assert |multiset(r)| == |multiset(s)|;
      r
  }

  class Surface {
    const width: nat
    const height: nat
    const buffer: array2<Color>
    const queue: array<BitmapRect>
    var queueLength: nat
    var dirty: bool
    var dirtyRect: Rect
    var clipped: bool
    var clipRect: Rect
    var realized: bool
    var sent: seq<Instruction>
    ghost const over: (Color, Color) -> Color

    function Bounds(): Rect {
      Rect(0, 0, width, height)
    }

    /** The area drawing is limited to. */
    function ClipArea(): Rect
      reads this
    {
      if clipped then clipRect else Bounds()
    }

    ghost predicate Shape()
      reads this
    {
      && buffer.Length0 == height && buffer.Length1 == width
      && queue.Length == QUEUE_SIZE && queueLength <= QUEUE_SIZE
      && OverLaws(over)
      && (dirty ==> !Empty(dirtyRect) && Within(dirtyRect, Bounds()))
      && (clipped ==> Within(clipRect, Bounds()))
    }

    ghost predicate Queued(x: int, y: int)
      reads this, queue
      requires queueLength <= queue.Length
    {
      exists i :: 0 <= i < queueLength && !queue[i].flushed && Contains(queue[i].rect, x, y)
    }

    ghost predicate Pending(x: int, y: int)
      reads this, queue
      requires queueLength <= queue.Length
    {
      (dirty && Contains(dirtyRect, x, y)) || Queued(x, y)
    }

    ghost function Remote(x: int, y: int): Color
      reads this
    {
      RemotePixel(over, sent, x, y)
    }

    /** The remote layer agrees with the buffer except where an update is pending
        or inside `except`. */
    ghost predicate Mirrors(except: Rect)
      reads this, buffer, queue
      requires Shape()
    {
      forall x, y {:trigger RemotePixel(over, sent, x, y)} :: Contains(Bounds(), x, y) ==>
        RemotePixel(over, sent, x, y) == buffer[y, x] || Pending(x, y) || Contains(except, x, y)
    }

    /** What every public operation keeps. The last queue slot stays free. */
    ghost predicate Valid()
      reads this, buffer, queue
    {
      && Shape()
      && queueLength < QUEUE_SIZE
      && Mirrors(Rect(0, 0, 0, 0))
    }

    constructor (width: nat, height: nat, realized: bool, ghost over: (Color, Color) -> Color)
      requires OverLaws(over)
      ensures Valid() && fresh(buffer) && fresh(queue)
      ensures this.width == width && this.height == height && this.over == over
      ensures !clipped && !dirty && queueLength == 0 && sent == [] && this.realized == realized
      ensures forall x, y :: Contains(Bounds(), x, y) ==> buffer[y, x] == 0
    {
      this.width := width;
      this.height := height;
      this.buffer := new Color[height, width]((_, _) => 0);
      this.queue := new BitmapRect[QUEUE_SIZE](_ => BitmapRect(true, Rect(0, 0, 0, 0)));
      this.queueLength := 0;
      this.dirty := false;
      this.dirtyRect := Rect(0, 0, 0, 0);
      this.clipped := false;
      this.clipRect := Rect(0, 0, 0, 0);
      this.realized := realized;
      this.sent := [];
      this.over := over;
    }

    // -------------------------------------------------------------------
    // Deferral
    // -------------------------------------------------------------------

    /** Whether an update should join the dirty rectangle. There is deliberately no
        postcondition: every caller is proved for any answer this could give. */
    method ShouldCombine(rect: Rect, rectOnly: bool) returns (combine: bool) {
      if !realized {
        return true;
      }
      if dirty {
        var combined := Extend(dirtyRect, rect);
        if combined.width <= 64 && combined.height <= 64 {
          return true;
        }
        var combinedCost := 4096 + combined.width * combined.height;
        var dirtyCost := 4096 + dirtyRect.width * dirtyRect.height;
        var updateCost := 4096 + rect.width * rect.height;
        if rectOnly {
          updateCost := updateCost / 16;
        }
        if combinedCost <= updateCost + dirtyCost
          || combinedCost - dirtyCost <= dirtyCost / 4
          || combinedCost - updateCost <= updateCost / 4 {
          return true;
        }
        if rect.x == dirtyRect.x && rect.y == dirtyRect.y + dirtyRect.height
          && combinedCost <= (dirtyCost + updateCost) * 3 {
          return true;
        }
      }
      return false;
    }

    method MarkDirty(rect: Rect)
      requires Shape() && (!Empty(rect) ==> Within(rect, Bounds()))
      modifies this`dirty, this`dirtyRect
      ensures Shape()
      ensures !Empty(rect) || old(dirty) ==> dirty
      ensures forall x, y :: Contains(rect, x, y) ==> dirty && Contains(dirtyRect, x, y)
      ensures forall x, y :: old(dirty) && Contains(old(dirtyRect), x, y) ==> Contains(dirtyRect, x, y)
    {
      if rect.width <= 0 || rect.height <= 0 {
        return;
      }
      if dirty {
        dirtyRect := Extend(dirtyRect, rect);
      } else {
        dirtyRect := rect;
        dirty := true;
      }
    }

    method FlushToQueue()
      requires Shape() && (dirty ==> queueLength < QUEUE_SIZE)
      modifies this`queueLength, this`dirty, queue
      ensures Shape() && !dirty
      ensures queueLength == old(queueLength) + (if old(dirty) then 1 else 0)
      ensures old(dirty) ==> queue[old(queueLength)] == BitmapRect(false, dirtyRect)
      ensures forall i :: 0 <= i < old(queueLength) ==> queue[i] == old(queue[i])
      ensures forall x, y :: old(Pending(x, y)) ==> Pending(x, y)
    {
      if !dirty {
        return;
      }
      queue[queueLength] := BitmapRect(false, dirtyRect);
      queueLength := queueLength + 1;
      dirty := false;
      assert queue[old(queueLength)] == BitmapRect(false, dirtyRect);
    }

    /** qsort of the queue: sorted, a permutation, and so the same pending pixels. */
    method SortQueue()
      requires Shape() && !dirty
      modifies queue
      ensures SortedQueue(queue[..queueLength])
      ensures multiset(queue[..queueLength]) == multiset(old(queue[..queueLength]))
      ensures forall x, y :: old(Pending(x, y)) ==> Pending(x, y)
    {
      var sorted := SortRects(queue[..queueLength]);
      forall i | 0 <= i < queueLength {
        queue[i] := sorted[i];
      }
      assert queue[..queueLength] == sorted;
      forall x, y | old(Pending(x, y))
        ensures Pending(x, y)
      {
        var i :| 0 <= i < queueLength && !old(queue[i]).flushed && Contains(old(queue[i]).rect, x, y);
        assert old(queue[i]) in old(queue[..queueLength]);
        assert old(queue[i]) in multiset(sorted);
        var k :| 0 <= k < |sorted| && sorted[k] == old(queue[i]);
        assert queue[k] == sorted[k];
      }
    }

    /** Body of the inner flush loop: the unflushed entry `j` is clipped to the
        surface and, if that pays or nothing is dirty yet, joins the dirty rectangle. */
    method Absorb(j: nat) returns (taken: bool)
      requires Shape() && j < queueLength && !queue[j].flushed
      modifies this`dirty, this`dirtyRect, queue
      ensures Shape()
      ensures old(dirty) ==> dirty
      ensures !old(dirty) ==> queue[j].flushed
      ensures queue[j].flushed <==> taken || Empty(Constrain(old(queue[j].rect), Bounds()))
      ensures taken ==> dirty
      ensures forall i :: 0 <= i < queueLength && i != j ==> queue[i] == old(queue[i])
      ensures forall x, y :: Contains(Bounds(), x, y) && old(Pending(x, y)) ==> Pending(x, y)
    {
      taken := false;
      var rect := Constrain(queue[j].rect, Bounds());
      queue[j] := BitmapRect(false, rect);
      if rect.width <= 0 || rect.height <= 0 {
        queue[j] := BitmapRect(true, rect);
      } else {
        var combine := ShouldCombine(rect, false);
        if combine || !dirty {
          MarkDirty(rect);
          queue[j] := BitmapRect(true, rect);
          taken := true;
        }
      }
      forall x, y | Contains(Bounds(), x, y) && old(Pending(x, y))
        ensures Pending(x, y)
      {
        if !(dirty && Contains(dirtyRect, x, y)) {
          var i :| 0 <= i < queueLength && !old(queue[i]).flushed && Contains(old(queue[i]).rect, x, y);
          assert i != j ==> queue[i] == old(queue[i]);
        }
      }
    }

    // -------------------------------------------------------------------
    // Sending
    // -------------------------------------------------------------------

    method IsOpaque(rect: Rect) returns (all: bool)
      requires Shape() && Within(rect, Bounds()) && Sized(rect)
      ensures all <==> forall x, y :: Contains(rect, x, y) ==> Opaque(buffer[y, x])
    {
      for j := 0 to rect.height
        invariant forall x, y :: Contains(rect, x, y) && y < rect.y + j ==> Opaque(buffer[y, x])
      {
        for i := 0 to rect.width
          invariant forall x, y :: Contains(rect, x, y) && y < rect.y + j ==> Opaque(buffer[y, x])
          invariant forall x, y :: Contains(rect, x, y) && y == rect.y + j && x < rect.x + i ==> Opaque(buffer[y, x])
        {
          if !Opaque(buffer[rect.y + j, rect.x + i]) {
            assert Contains(rect, rect.x + i, rect.y + j);
            return false;
          }
        }
      }
      return true;
    }

    /** The pixels of a rectangle as they are now, row by row. */
    method Snapshot(rect: Rect) returns (rows: seq<seq<Color>>)
      requires Shape() && Within(rect, Bounds()) && Sized(rect)
      ensures Shaped(Bitmap(rect, rows, false))
      ensures forall x, y :: Contains(rect, x, y) ==> rows[y - rect.y][x - rect.x] == buffer[y, x]
    {
      rows := [];
      for j := 0 to rect.height
        invariant |rows| == j
        invariant forall k :: 0 <= k < j ==> |rows[k]| == rect.width
        invariant forall i, k :: 0 <= k < j && 0 <= i < rect.width ==> rows[k][i] == buffer[rect.y + k, rect.x + i]
      {
        var row := [];
        for i := 0 to rect.width
          invariant |row| == i
          invariant forall k :: 0 <= k < i ==> row[k] == buffer[rect.y + j, rect.x + k]
        {
          row := row + [buffer[rect.y + j, rect.x + i]];
        }
        rows := rows + [row];
      }
    }

    /** Sends the dirty rectangle as lossless image data: afterwards exactly those
        remote pixels equal the buffer and all others are as they were. */
    method FlushToPng(allOpaque: bool)
      requires Shape() && dirty
      requires allOpaque ==> forall x, y :: Contains(dirtyRect, x, y) ==> Opaque(buffer[y, x])
      modifies this`dirty, this`realized, this`sent
      ensures Shape() && !dirty && realized
      ensures forall x, y :: Contains(dirtyRect, x, y) ==> Remote(x, y) == buffer[y, x]
      ensures forall x, y :: !Contains(dirtyRect, x, y) ==> Remote(x, y) == old(Remote(x, y))
    {
      var rows := Snapshot(dirtyRect);
      var image := Bitmap(dirtyRect, rows, allOpaque);
      if !allOpaque {
        sent := sent + [Clear(dirtyRect)];
      }
      sent := sent + [image];
      realized := true;
      dirty := false;
      forall x, y
        ensures Remote(x, y) == if Contains(dirtyRect, x, y) then buffer[y, x] else old(Remote(x, y))
      {
        BitmapReplaces(over, old(sent), image, x, y);
      }
    }

    /** __guac_common_surface_flush: scans the queue while appending to it. */
    method FlushContents(ghost except: Rect)
      requires Shape() && queueLength < QUEUE_SIZE && Mirrors(except)
      modifies this`queueLength, this`dirty, this`dirtyRect, this`realized, this`sent, queue
      ensures Shape() && queueLength == 0 && !dirty
      ensures Mirrors(except)
    {
      FlushToQueue();
      SortQueue();
      FlushSorted(queueLength, except);
      queueLength := 0;
    }

    /** Its loop, over a queue that is sorted to begin with. */
    method FlushSorted(originalLength: nat, ghost except: Rect)
      requires Shape() && !dirty && Mirrors(except)
      requires originalLength == queueLength && SortedQueue(queue[..queueLength])
      modifies this`queueLength, this`dirty, this`dirtyRect, this`realized, this`sent, queue
      ensures Shape() && !dirty && Mirrors(except)
      ensures forall k :: 0 <= k < queueLength ==> queue[k].flushed
    {
      var i := 0;
      while i < queueLength
        invariant i <= queueLength && Shape() && !dirty
        invariant forall k :: 0 <= k < i ==> queue[k].flushed
        invariant Mirrors(except)
        decreases QUEUE_SIZE - i
      {
        if !queue[i].flushed {
          var combined := GatherFrom(i, except);
          if (combined > 1 || i < originalLength) && queueLength < QUEUE_SIZE {
            FlushToQueue();
          } else if dirty {
            SendDirty(except);
          }
        }
        i := i + 1;
      }
    }

    /** The inner loop: builds up one dirty rectangle from entry `i` onward. */
    method GatherFrom(i: nat, ghost except: Rect) returns (combined: nat)
      requires Shape() && i < queueLength && !dirty && !queue[i].flushed && Mirrors(except)
      requires forall k :: 0 <= k < i ==> queue[k].flushed
      modifies this`dirty, this`dirtyRect, queue
      ensures Shape() && Mirrors(except)
      ensures forall k :: 0 <= k <= i ==> queue[k].flushed
    {
      combined := 0;
      var j := i;
      while j < queueLength
        invariant i <= j <= queueLength && Shape() && Mirrors(except)
        invariant forall k :: 0 <= k < i ==> queue[k].flushed
        invariant j == i ==> !dirty
        invariant j > i ==> queue[i].flushed
      {
        if !queue[j].flushed {
          var taken := Absorb(j);
          if taken {
            combined := combined + 1;
          }
        }
        j := j + 1;
      }
    }

    method SendDirty(ghost except: Rect)
      requires Shape() && dirty && Mirrors(except)
      modifies this`dirty, this`realized, this`sent
      ensures Shape() && !dirty && Mirrors(except)
    {
      var allOpaque := IsOpaque(dirtyRect);
      FlushToPng(allOpaque);
    }

    /** __guac_common_surface_flush_deferred: afterwards there is room in the queue. */
    method FlushDeferred(ghost except: Rect)
      requires Shape() && queueLength < QUEUE_SIZE && Mirrors(except)
      modifies this`queueLength, this`dirty, this`dirtyRect, this`realized, this`sent, queue
      ensures Shape() && queueLength < QUEUE_SIZE && Mirrors(except) && !dirty
      ensures !old(dirty) ==> queueLength == old(queueLength) && queue[..] == old(queue[..])
      ensures old(dirty) && old(queueLength) == QUEUE_SIZE - 1 ==> queueLength == 0
      ensures old(dirty) && old(queueLength) < QUEUE_SIZE - 1 ==>
        queueLength == old(queueLength) + 1 && queue[old(queueLength)] == BitmapRect(false, old(dirtyRect))
    {
      if !dirty {
        return;
      }
      if queueLength == QUEUE_SIZE - 1 {
        FlushContents(except);
      }
      FlushToQueue();
    }

    // -------------------------------------------------------------------
    // Pixel loops
    // -------------------------------------------------------------------

    /** __guac_common_surface_set: `changed` holds every pixel that changed. */
    method SetPixels(rect: Rect, color: Color) returns (changed: Rect)
      requires Shape() && !Empty(rect) && Within(rect, Bounds())
      modifies buffer
      ensures forall x, y :: Contains(Bounds(), x, y) ==>
        buffer[y, x] == if Contains(rect, x, y) then color else old(buffer[y, x])
      ensures Within(changed, rect)
      ensures forall x, y :: Contains(Bounds(), x, y) && buffer[y, x] != old(buffer[y, x]) ==> Contains(changed, x, y)
    {
      var e := Extent(rect.width - 1, rect.height - 1, 0, 0);
      for j := 0 to rect.height
        invariant e.InBox(rect.width, rect.height)
        invariant forall x, y :: Contains(Bounds(), x, y) ==>
          buffer[y, x] == if Contains(rect, x, y) && y < rect.y + j then color else old(buffer[y, x])
        invariant forall x, y :: Contains(Bounds(), x, y) && buffer[y, x] != old(buffer[y, x]) ==>
          e.Has(x - rect.x, y - rect.y)
      {
        for i := 0 to rect.width
          invariant e.InBox(rect.width, rect.height)
          invariant forall x, y :: Contains(Bounds(), x, y) ==>
            buffer[y, x] == if Contains(rect, x, y) && (y < rect.y + j || (y == rect.y + j && x < rect.x + i))
                            then color else old(buffer[y, x])
          invariant forall x, y :: Contains(Bounds(), x, y) && buffer[y, x] != old(buffer[y, x]) ==>
            e.Has(x - rect.x, y - rect.y)
        {
          if buffer[rect.y + j, rect.x + i] != color {
            e := e.Include(i, j);
            buffer[rect.y + j, rect.x + i] := color;
          }
        }
      }
      changed := Restrict(rect, e);
    }

    /** One row of __guac_common_surface_put. */
    method PutRow(f: (Color, Color) -> Color, src: Image, sx0: int, sy0: int, rect: Rect, j: nat, e0: Extent)
      returns (e: Extent)
      requires Shape() && !Empty(rect) && Within(rect, Bounds()) && j < rect.height
      requires src.Valid() && Within(Rect(sx0, sy0, rect.width, rect.height), src.Area())
      requires e0.InBox(rect.width, rect.height)
      modifies buffer
      ensures forall x, y :: Contains(Bounds(), x, y) ==>
        buffer[y, x] == if Contains(rect, x, y) && y == rect.y + j
                        then f(PixelAt(src, sx0 + x - rect.x, sy0 + y - rect.y), old(buffer[y, x]))
                        else old(buffer[y, x])
      ensures e.InBox(rect.width, rect.height)
      ensures e0.Inside(e)
      ensures forall x, y :: Contains(Bounds(), x, y) && buffer[y, x] != old(buffer[y, x]) ==>
        e.Has(x - rect.x, y - rect.y)
    {
      e := e0;
      var y0 := rect.y + j;
      for i := 0 to rect.width
        invariant e.InBox(rect.width, rect.height)
        invariant e0.Inside(e)
        invariant forall x, y :: Contains(Bounds(), x, y) && !(y == y0 && Contains(rect, x, y)) ==>
          buffer[y, x] == old(buffer[y, x])
        invariant forall x :: rect.x <= x < rect.x + rect.width ==>
          buffer[y0, x] == if x < rect.x + i
                           then f(PixelAt(src, sx0 + x - rect.x, sy0 + j), old(buffer[y0, x]))
                           else old(buffer[y0, x])
        invariant forall x :: rect.x <= x < rect.x + rect.width && buffer[y0, x] != old(buffer[y0, x]) ==>
          e.Has(x - rect.x, j)
      {
        var dstColor := buffer[y0, rect.x + i];
        var color := f(PixelAt(src, sx0 + i, sy0 + j), dstColor);
        if dstColor != color {
          e := e.Include(i, j);
          buffer[y0, rect.x + i] := color;
        }
      }
    }

    /** __guac_common_surface_put, for any function `f` of source and destination pixel. */
    method Put(f: (Color, Color) -> Color, src: Image, sx0: int, sy0: int, rect: Rect)
      returns (sx: int, sy: int, changed: Rect)
      requires Shape() && !Empty(rect) && Within(rect, Bounds())
      requires src.Valid() && Within(Rect(sx0, sy0, rect.width, rect.height), src.Area())
      modifies buffer
      ensures forall x, y :: Contains(Bounds(), x, y) ==>
        buffer[y, x] == if Contains(rect, x, y)
                        then f(PixelAt(src, sx0 + x - rect.x, sy0 + y - rect.y), old(buffer[y, x]))
                        else old(buffer[y, x])
      ensures Within(changed, rect)
      ensures forall x, y :: Contains(Bounds(), x, y) && buffer[y, x] != old(buffer[y, x]) ==> Contains(changed, x, y)
      ensures sx == sx0 + changed.x - rect.x && sy == sy0 + changed.y - rect.y
    {
      var e := Extent(rect.width, rect.height, 0, 0);
      for j := 0 to rect.height
        invariant e.InBox(rect.width, rect.height)
        invariant forall x, y :: Contains(Bounds(), x, y) ==>
          buffer[y, x] == if Contains(rect, x, y) && y < rect.y + j
                          then f(PixelAt(src, sx0 + x - rect.x, sy0 + y - rect.y), old(buffer[y, x]))
                          else old(buffer[y, x])
        invariant forall x, y :: Contains(Bounds(), x, y) && buffer[y, x] != old(buffer[y, x]) ==>
          e.Has(x - rect.x, y - rect.y)
      {
        e := PutRow(f, src, sx0, sy0, rect, j, e);
      }
      changed := Restrict(rect, e);
      sx, sy := sx0 + changed.x - rect.x, sy0 + changed.y - rect.y;
    }

    /** __guac_common_surface_fill_mask. */
    method FillMask(src: Image, sx: int, sy: int, rect: Rect, color: Color)
      requires Shape() && !Empty(rect) && Within(rect, Bounds())
      requires src.Valid() && Within(Rect(sx, sy, rect.width, rect.height), src.Area())
      modifies buffer
      ensures forall x, y :: Contains(Bounds(), x, y) ==>
        buffer[y, x] == if Contains(rect, x, y)
                        then MaskPixel(src, sx + x - rect.x, sy + y - rect.y, color, old(buffer[y, x]))
                        else old(buffer[y, x])
    {
      for j := 0 to rect.height
        invariant forall x, y :: Contains(Bounds(), x, y) ==>
          buffer[y, x] == if Contains(rect, x, y) && y < rect.y + j
                          then MaskPixel(src, sx + x - rect.x, sy + y - rect.y, color, old(buffer[y, x]))
                          else old(buffer[y, x])
      {
        for i := 0 to rect.width
          invariant forall x, y :: Contains(Bounds(), x, y) ==>
            buffer[y, x] == if Contains(rect, x, y) && (y < rect.y + j || (y == rect.y + j && x < rect.x + i))
                            then MaskPixel(src, sx + x - rect.x, sy + y - rect.y, color, old(buffer[y, x]))
                            else old(buffer[y, x])
        {
          if src.rows[sy + j][sx + i] & 0xFF000000 != 0 {
            buffer[rect.y + j, rect.x + i] := color;
          }
        }
      }
    }

    /** __guac_common_surface_transfer_int on two pixels of the buffer, for any
        transfer function `f` of source and destination. */
    method TransferPixel(f: (Color, Color) -> Color, sx: int, sy: int, dx: int, dy: int) returns (changed: bool)
      requires Shape() && Contains(Bounds(), sx, sy) && Contains(Bounds(), dx, dy)
      modifies buffer
      ensures forall x, y :: Contains(Bounds(), x, y) ==>
        buffer[y, x] == if x == dx && y == dy
                        then f(old(buffer[sy, sx]), old(buffer[dy, dx]))
                        else old(buffer[y, x])
      ensures changed <==> buffer[dy, dx] != old(buffer[dy, dx])
    {
      var original := buffer[dy, dx];
      buffer[dy, dx] := f(buffer[sy, sx], original);
      changed := buffer[dy, dx] != original;
    }

    /** The pixel a transfer of `f` from (sx, sy) into `rect` puts at (x, y), computed
        from the buffer as it is now. */
    ghost function Moving(f: (Color, Color) -> Color, sx: int, sy: int, rect: Rect, x: int, y: int): Color
      reads this, buffer
      requires Shape() && Contains(Bounds(), x, y)
      requires Within(Rect(sx, sy, rect.width, rect.height), Bounds())
    {
      if Contains(rect, x, y) then f(buffer[sy + y - rect.y, sx + x - rect.x], buffer[y, x]) else buffer[y, x]
    }

    /** One row of a transfer, in the direction of the copy. The source row may be
        the same row only when the copy runs away from it. */
    method TransferRow(f: (Color, Color) -> Color, sx0: int, sy0: int, rect: Rect, forward: bool, j: nat, e0: Extent)
      returns (e: Extent)
      requires Shape() && !Empty(rect) && Within(rect, Bounds()) && j < rect.height
      requires Within(Rect(sx0, sy0, rect.width, rect.height), Bounds())
      requires sy0 == rect.y ==> (forward <==> rect.x < sx0)
      requires e0.InBox(rect.width, rect.height)
      modifies buffer
      ensures forall x, y :: Contains(Bounds(), x, y) ==>
        buffer[y, x] == if Contains(rect, x, y) && y == rect.y + Turn(forward, rect.height, j)
                        then f(old(buffer[sy0 + y - rect.y, sx0 + x - rect.x]), old(buffer[y, x]))
                        else old(buffer[y, x])
      ensures e.InBox(rect.width, rect.height)
      ensures e0.Inside(e)
      ensures forall x, y :: Contains(Bounds(), x, y) && buffer[y, x] != old(buffer[y, x]) ==>
        e.Has(Turn(forward, rect.width, x - rect.x), j)
    {
      e := e0;
      var y0 := rect.y + Turn(forward, rect.height, j);
      var z0 := sy0 + Turn(forward, rect.height, j);
      var lo, hi := rect.x, rect.x;
      if !forward {
        lo, hi := rect.x + rect.width, rect.x + rect.width;
      }
      for i := 0 to rect.width
        invariant lo == (if forward then rect.x else rect.x + rect.width - i) && hi == lo + i
        invariant e.InBox(rect.width, rect.height) && e0.Inside(e)
        invariant forall x, y :: Contains(Bounds(), x, y) && y != y0 ==> buffer[y, x] == old(buffer[y, x])
        invariant forall x :: 0 <= x < width ==>
          buffer[y0, x] == if lo <= x < hi then f(old(buffer[z0, sx0 + x - rect.x]), old(buffer[y0, x]))
                           else old(buffer[y0, x])
        invariant forall x :: lo <= x < hi && buffer[y0, x] != old(buffer[y0, x]) ==>
          e.Has(Turn(forward, rect.width, x - rect.x), j)
      {
        var col := Turn(forward, rect.width, i);
        var unread := sx0 + col;
        assert buffer[z0, unread] == old(buffer[z0, unread]);
        var changed := TransferPixel(f, unread, z0, rect.x + col, y0);
        if changed {
          e := e.Include(i, j);
        }
        if forward {
          hi := hi + 1;
        } else {
          lo := lo - 1;
        }
      }
    }

    /** __guac_common_surface_transfer within one surface. Whatever the overlap, the
        direction makes the result that of transferring all pixels at once. */
    method TransferPixels(f: (Color, Color) -> Color, sx0: int, sy0: int, rect: Rect)
      returns (sx: int, sy: int, changed: Rect)
      requires Shape() && !Empty(rect) && Within(rect, Bounds())
      requires Within(Rect(sx0, sy0, rect.width, rect.height), Bounds())
      modifies buffer
      ensures forall x, y :: Contains(Bounds(), x, y) ==>
        buffer[y, x] == old(Moving(f, sx0, sy0, rect, x, y))
      ensures Within(changed, rect)
      ensures forall x, y :: Contains(Bounds(), x, y) && buffer[y, x] != old(buffer[y, x]) ==> Contains(changed, x, y)
      ensures sx == sx0 + changed.x - rect.x && sy == sy0 + changed.y - rect.y
    {
      var forward := rect.y < sy0 || (rect.y == sy0 && rect.x < sx0);
      var e := TransferRows(f, sx0, sy0, rect, forward);
      if !forward {
        e := Extent(rect.width - 1 - e.maxX, rect.height - 1 - e.maxY,
                    rect.width - 1 - e.minX, rect.height - 1 - e.minY);
      }
      changed := Restrict(rect, e);
      sx, sy := sx0 + changed.x - rect.x, sy0 + changed.y - rect.y;
    }

    /** All rows of a transfer, in a direction that never overwrites a row before it is
        read. */
    method TransferRows(f: (Color, Color) -> Color, sx0: int, sy0: int, rect: Rect, forward: bool) returns (e: Extent)
      requires Shape() && !Empty(rect) && Within(rect, Bounds())
      requires Within(Rect(sx0, sy0, rect.width, rect.height), Bounds())
      requires forward <==> rect.y < sy0 || (rect.y == sy0 && rect.x < sx0)
      modifies buffer
      ensures forall x, y :: Contains(Bounds(), x, y) ==>
        buffer[y, x] == old(Moving(f, sx0, sy0, rect, x, y))
      ensures e.InBox(rect.width, rect.height)
      ensures forall x, y :: Contains(Bounds(), x, y) && buffer[y, x] != old(buffer[y, x]) ==>
        e.Has(Turn(forward, rect.width, x - rect.x), Turn(forward, rect.height, y - rect.y))
    {
      e := Extent(rect.width - 1, rect.height - 1, 0, 0);
      for j := 0 to rect.height
        invariant e.InBox(rect.width, rect.height)
        invariant forall x, y :: Contains(Bounds(), x, y) ==>
          buffer[y, x] == if Contains(rect, x, y) && Turn(forward, rect.height, y - rect.y) < j
                          then f(old(buffer[sy0 + y - rect.y, sx0 + x - rect.x]), old(buffer[y, x]))
                          else old(buffer[y, x])
        invariant forall x, y :: Contains(Bounds(), x, y) && buffer[y, x] != old(buffer[y, x]) ==>
          e.Has(Turn(forward, rect.width, x - rect.x), Turn(forward, rect.height, y - rect.y))
      {
        e := TransferRow(f, sx0, sy0, rect, forward, j, e);
      }
    }

    /** When only pixels inside `changed` differ from before, only those may be out
        of step without being pending. */
    twostate lemma StillMirrors(changed: Rect)
      requires old(Valid()) && Shape() && unchanged(this) && unchanged(queue)
      requires forall x, y :: Contains(Bounds(), x, y) && buffer[y, x] != old(buffer[y, x]) ==> Contains(changed, x, y)
      ensures Mirrors(changed)
    {
      forall x, y | Contains(Bounds(), x, y)
        ensures Remote(x, y) == buffer[y, x] || Pending(x, y) || Contains(changed, x, y)
      {
        assert old(Remote(x, y)) == Remote(x, y);
        assert old(Pending(x, y)) == Pending(x, y);
      }
    }

    // -------------------------------------------------------------------
    // Public operations
    // -------------------------------------------------------------------

    /** guac_common_surface_draw. */
    method Draw(x: int, y: int, src: Image)
      requires Valid() && src.Valid()
      modifies this`queueLength, this`dirty, this`dirtyRect, this`realized, this`sent, queue, buffer
      ensures Valid()
      ensures forall px, py :: Contains(Bounds(), px, py) ==>
        buffer[py, px] == DrawnPixel(PutFunction(src.rgbOnly), ClipArea(), x, y, src, px, py, old(buffer[py, px]))
      ensures forall px, py {:trigger buffer[py, px]} ::
        Contains(ClipArea(), px, py) && Contains(Rect(x, y, src.width, src.height), px, py) ==>
          Composed(src.rgbOnly, src.rows[py - y][px - x], old(buffer[py, px]), buffer[py, px])
    {
      PutComposes(src.rgbOnly);
      DrawBy(PutFunction(src.rgbOnly), x, y, src);
    }

    method DrawBy(f: (Color, Color) -> Color, x: int, y: int, src: Image)
      requires Valid() && src.Valid()
      modifies this`queueLength, this`dirty, this`dirtyRect, this`realized, this`sent, queue, buffer
      ensures Valid()
      ensures forall px, py :: Contains(Bounds(), px, py) ==>
        buffer[py, px] == DrawnPixel(f, ClipArea(), x, y, src, px, py, old(buffer[py, px]))
    {
      var rect := Constrain(Rect(x, y, src.width, src.height), ClipArea());
      if rect.width <= 0 || rect.height <= 0 {
        return;
      }
      var sx, sy, changed := Put(f, src, rect.x - x, rect.y - y, rect);
      StillMirrors(changed);
      if changed.width <= 0 || changed.height <= 0 {
        return;
      }
      Defer(changed);
    }

    /** guac_common_surface_paint. */
    method Paint(x: int, y: int, src: Image, red: bv32, green: bv32, blue: bv32)
      requires Valid() && src.Valid()
      modifies this`queueLength, this`dirty, this`dirtyRect, this`realized, this`sent, queue, buffer
      ensures Valid()
      ensures forall px, py :: Contains(Bounds(), px, py) ==>
        buffer[py, px] == PaintedPixel(ClipArea(), x, y, src, Argb(0xFF, red, green, blue), px, py, old(buffer[py, px]))
    {
      var rect := Constrain(Rect(x, y, src.width, src.height), ClipArea());
      if rect.width <= 0 || rect.height <= 0 {
        return;
      }
      FillMask(src, rect.x - x, rect.y - y, rect, Argb(0xFF, red, green, blue));
      Defer(rect);
    }

    /** "Flush if not combining", then "always defer draws". */
    method Defer(rect: Rect)
      requires Shape() && queueLength < QUEUE_SIZE && Mirrors(rect) && Within(rect, Bounds())
      modifies this`queueLength, this`dirty, this`dirtyRect, this`realized, this`sent, queue
      ensures Valid()
    {
      var combine := ShouldCombine(rect, false);
      if !combine {
        FlushDeferred(rect);
      }
      MarkDirty(rect);
    }

    /** guac_common_surface_set. */
    method Set(x: int, y: int, w: int, h: int, red: bv32, green: bv32, blue: bv32, alpha: bv32)
      requires Valid()
      modifies this`queueLength, this`dirty, this`dirtyRect, this`realized, this`sent, queue, buffer
      ensures Valid()
      ensures forall px, py :: Contains(Bounds(), px, py) ==>
        buffer[py, px] ==
          FilledPixel(ClipArea(), Rect(x, y, w, h), Argb(alpha, red, green, blue), px, py, old(buffer[py, px]))
    {
      var color := Argb(alpha, red, green, blue);
      var rect := Constrain(Rect(x, y, w, h), ClipArea());
      if rect.width <= 0 || rect.height <= 0 {
        return;
      }
      var changed := SetPixels(rect, color);
      StillMirrors(changed);
      if changed.width <= 0 || changed.height <= 0 {
        return;
      }
      if alpha != 0xFF {
        Defer(changed);
      } else {
        var combine := ShouldCombine(changed, true);
        if combine {
          MarkDirty(changed);
        } else {
          FlushContents(changed);
          ArgbOpaque(red, green, blue);
          SendFill(changed, color);
        }
      }
    }

    /** "rect" and "cfill" sent at once: the whole rectangle already has this color. */
    method SendFill(rect: Rect, color: Color)
      requires Shape() && queueLength == 0 && !dirty && Mirrors(rect) && Opaque(color)
      requires forall x, y :: Contains(Bounds(), x, y) && Contains(rect, x, y) ==> buffer[y, x] == color
      modifies this`sent, this`realized
      ensures Valid() && realized
    {
      sent := sent + [Fill(rect, color)];
      realized := true;
      forall x, y | Contains(Bounds(), x, y)
        ensures Remote(x, y) == buffer[y, x]
      {
        RemoteStep(over, old(sent), Fill(rect, color), x, y);
      }
    }

    /** guac_common_surface_transfer with the same surface as source and destination,
        for any transfer function `f` of source and destination pixel. */
    method TransferWithin(source: Rect, f: (Color, Color) -> Color, dx: int, dy: int)
      requires Valid()
      modifies this`queueLength, this`dirty, this`dirtyRect, this`realized, this`sent, queue, buffer
      ensures Valid()
      ensures forall px, py {:trigger buffer[py, px]} :: Contains(Bounds(), px, py) ==>
        buffer[py, px] ==
          if Contains(Moved(Bounds(), ClipArea(), source, dx, dy), px, py)
          then f(old(buffer[py + source.y - dy, px + source.x - dx]), old(buffer[py, px]))
          else old(buffer[py, px])
    {
      var srect := Constrain(source, Bounds());
      if srect.width <= 0 || srect.height <= 0 {
        return;
      }
      var drect := Moved(Bounds(), ClipArea(), source, dx, dy);
      if drect.width <= 0 || drect.height <= 0 {
        return;
      }
      TransferClipped(f, drect.x + source.x - dx, drect.y + source.y - dy, drect);
    }

    /** The rest of guac_common_surface_transfer once both rectangles are clipped. */
    method TransferClipped(f: (Color, Color) -> Color, sx: int, sy: int, drect: Rect)
      requires Valid() && !Empty(drect) && Within(drect, Bounds())
      requires Within(Rect(sx, sy, drect.width, drect.height), Bounds())
      modifies this`queueLength, this`dirty, this`dirtyRect, this`realized, this`sent, queue, buffer
      ensures Valid()
      ensures forall x, y :: Contains(Bounds(), x, y) ==>
        buffer[y, x] == old(Moving(f, sx, sy, drect, x, y))
    {
      var combine := ShouldCombine(drect, true);
      if combine {
        MarkDirty(drect);
        var sx1, sy1, changed := TransferPixels(f, sx, sy, drect);
      } else {
        FlushContents(Rect(0, 0, 0, 0));
        SendMove(Transfer(f, sx, sy, drect), f);
        var sx1, sy1, changed := TransferPixels(f, sx, sy, drect);
      }
    }

    /** Where nothing is pending, what has been sent shows the buffer. */
    lemma InStep(sent: seq<Instruction>, x: int, y: int)
      requires Shape() && Contains(Bounds(), x, y)
      requires forall px, py {:trigger RemotePixel(over, sent, px, py)} :: Contains(Bounds(), px, py) ==>
        RemotePixel(over, sent, px, py) == buffer[py, px]
      ensures RemotePixel(over, sent, x, y) == buffer[y, x]
    {
    }

    lemma OneAhead(sent: seq<Instruction>, move: Instruction, f: (Color, Color) -> Color, x: int, y: int)
      requires Shape() && Contains(Bounds(), x, y) && Within(move.rect, Bounds()) && (move.Transfer? || move.Copy?)
      requires Within(Rect(move.sx, move.sy, move.rect.width, move.rect.height), Bounds())
      requires forall px, py {:trigger RemotePixel(over, sent, px, py)} :: Contains(Bounds(), px, py) ==>
        RemotePixel(over, sent, px, py) == buffer[py, px]
      requires forall src, dst :: f(src, dst) == if move.Transfer? then move.f(src, dst) else over(dst, src)
      ensures RemotePixel(over, sent + [move], x, y) == Moving(f, move.sx, move.sy, move.rect, x, y)
    {
      MoveShows(over, sent, move, f, x, y);
      InStep(sent, x, y);
      if Contains(move.rect, x, y) {
        InStep(sent, move.sx + x - move.rect.x, move.sy + y - move.rect.y);
      }
    }

    /** "transfer" or "copy" sent at once: the remote layer runs one step ahead of the
        buffer, by the function `f` of source and destination pixel. */
    method SendMove(instr: Instruction, ghost f: (Color, Color) -> Color)
      requires instr.Transfer? || instr.Copy?
      requires Valid() && queueLength == 0 && !dirty && Within(instr.rect, Bounds())
      requires Within(Rect(instr.sx, instr.sy, instr.rect.width, instr.rect.height), Bounds())
      requires forall src, dst :: f(src, dst) == if instr.Transfer? then instr.f(src, dst) else over(dst, src)
      modifies this`sent, this`realized
      ensures Shape() && realized
      ensures forall x, y :: Contains(Bounds(), x, y) ==>
        Remote(x, y) == Moving(f, instr.sx, instr.sy, instr.rect, x, y)
    {
      ghost var rect := instr.rect;
      sent := sent + [instr];
      realized := true;
      forall x, y | Contains(Bounds(), x, y)
        ensures Remote(x, y) == Moving(f, instr.sx, instr.sy, rect, x, y)
      {
        OneAhead(old(sent), instr, f, x, y);
      }
    }

    /** guac_common_surface_copy with the same surface as source and destination. If the
        copy is sent at once, a pixel is in step afterwards exactly if the receiver,
        which composes, gets what the buffer, which copies, has. */
    method CopyWithin(source: Rect, dx: int, dy: int) returns (immediate: bool)
      requires Valid()
      modifies this`queueLength, this`dirty, this`dirtyRect, this`realized, this`sent, queue, buffer
      ensures Shape()
      ensures forall px, py {:trigger buffer[py, px]} :: Contains(Bounds(), px, py) ==>
        buffer[py, px] ==
          if Contains(Moved(Bounds(), ClipArea(), source, dx, dy), px, py)
          then old(buffer[py + source.y - dy, px + source.x - dx])
          else old(buffer[py, px])
      ensures !immediate ==> Valid()
      ensures immediate ==> queueLength == 0 && !dirty
      ensures immediate ==> forall px, py {:trigger Remote(px, py)} :: Contains(Bounds(), px, py) ==>
        (Remote(px, py) == buffer[py, px] <==>
          (Contains(Moved(Bounds(), ClipArea(), source, dx, dy), px, py) ==>
             over(old(buffer[py, px]), buffer[py, px]) == buffer[py, px]))
    {
      immediate := false;
      var srect := Constrain(source, Bounds());
      if srect.width <= 0 || srect.height <= 0 {
        return;
      }
      var drect := Moved(Bounds(), ClipArea(), source, dx, dy);
      if drect.width <= 0 || drect.height <= 0 {
        return;
      }
      immediate := CopyClipped(drect.x + source.x - dx, drect.y + source.y - dy, drect);
    }

    method CopyClipped(sx: int, sy: int, drect: Rect) returns (immediate: bool)
      requires Valid() && !Empty(drect) && Within(drect, Bounds())
      requires Within(Rect(sx, sy, drect.width, drect.height), Bounds())
      modifies this`queueLength, this`dirty, this`dirtyRect, this`realized, this`sent, queue, buffer
      ensures Shape()
      ensures forall x, y :: Contains(Bounds(), x, y) ==>
        buffer[y, x] == old(Moving(KeepSource, sx, sy, drect, x, y))
      ensures !immediate ==> Valid()
      ensures immediate ==> queueLength == 0 && !dirty
      ensures immediate ==> forall x, y :: Contains(Bounds(), x, y) ==>
        Remote(x, y) == if Contains(drect, x, y) then over(old(buffer[y, x]), buffer[y, x]) else buffer[y, x]
    {
      var combine := ShouldCombine(drect, true);
      immediate := !combine;
      if combine {
        MarkDirty(drect);
        var sx1, sy1, changed := TransferPixels(KeepSource, sx, sy, drect);
      } else {
        FlushContents(Rect(0, 0, 0, 0));
        SendMove(Copy(sx, sy, drect), (src, dst) => over(dst, src));
        var sx1, sy1, changed := TransferPixels(KeepSource, sx, sy, drect);
      }
    }

    /** guac_common_surface_clip. */
    method Clip(x: int, y: int, w: int, h: int)
      requires Valid()
      modifies this`clipped, this`clipRect
      ensures Valid() && clipped
      ensures ClipArea() == Constrain(old(ClipArea()), Rect(x, y, w, h))
    {
      if !clipped {
        clipRect := Bounds();
        clipped := true;
      }
      clipRect := Constrain(clipRect, Rect(x, y, w, h));
    }

    /** guac_common_surface_reset_clip. */
    method ResetClip()
      requires Valid()
      modifies this`clipped
      ensures Valid() && ClipArea() == Bounds()
    {
      clipped := false;
    }

    /** guac_common_surface_flush: nothing stays pending and the remote layer is the buffer. */
    method Flush()
      requires Valid()
      modifies this`queueLength, this`dirty, this`dirtyRect, this`realized, this`sent, queue
      ensures Valid() && !dirty && queueLength == 0
      ensures forall x, y :: Contains(Bounds(), x, y) ==> Remote(x, y) == buffer[y, x]
    {
      FlushContents(Rect(0, 0, 0, 0));
    }
  }
}
