/** Whole runs of a surface against a reference canvas.

    The canvas knows nothing of dirty rectangles, queues or instructions: it only
    says what color each pixel should have after a sequence of operations.
  */
module SurfaceRuns {
  import opened Rects
  import opened Pixels
  import opened Surfaces

  datatype Operation =
    | Draw(f: (Color, Color) -> Color, x: int, y: int, image: Image)
    | Paint(x: int, y: int, image: Image, red: bv32, green: bv32, blue: bv32)
    | Set(rect: Rect, red: bv32, green: bv32, blue: bv32, alpha: bv32)
    | Move(source: Rect, f: (Color, Color) -> Color, x: int, y: int)
    | Copy(source: Rect, x: int, y: int)
    | Clip(rect: Rect)
    | ResetClip
    | Flush
  {
    ghost predicate Valid() {
      (Draw? ==> image.Valid()) && (Paint? ==> image.Valid())
    }
  }

  /** A picture of unlimited extent and the area drawing is limited to. */
  datatype Canvas = Canvas(bounds: Rect, clip: Rect, pixels: (int, int) -> Color)

  function Blank(width: nat, height: nat): Canvas {
    var bounds := Rect(0, 0, width, height);
    Canvas(bounds, bounds, (_, _) => 0)
  }

  /** The color of the pixel (x, y) after the pixels of `source` were moved to (dx, dy),
      all at once. */
  function MovedPixel(c: Canvas, source: Rect, f: (Color, Color) -> Color, dx: int, dy: int, x: int, y: int): Color {
    if Contains(Moved(c.bounds, c.clip, source, dx, dy), x, y)
    then f(c.pixels(x + source.x - dx, y + source.y - dy), c.pixels(x, y))
    else c.pixels(x, y)
  }

  /** The color of the pixel (x, y) after one operation on `c`. */
  ghost function Painted(c: Canvas, o: Operation, x: int, y: int): Color
    requires o.Valid()
  {
    var before := c.pixels(x, y);
    match o
    case Draw(f, dx, dy, image) => DrawnPixel(f, c.clip, dx, dy, image, x, y, before)
    case Paint(dx, dy, image, r, g, b) => PaintedPixel(c.clip, dx, dy, image, Argb(0xFF, r, g, b), x, y, before)
    case Set(rect, r, g, b, a) => FilledPixel(c.clip, rect, Argb(a, r, g, b), x, y, before)
    case Move(source, f, dx, dy) => MovedPixel(c, source, f, dx, dy, x, y)
    case Copy(source, dx, dy) => MovedPixel(c, source, KeepSource, dx, dy, x, y)
    case _ => before
  }

  ghost function Step(c: Canvas, o: Operation): Canvas
    requires o.Valid()
  {
    var clip := match o
      case Clip(rect) => Constrain(c.clip, rect)
      case ResetClip => c.bounds
      case _ => c.clip;
    Canvas(c.bounds, clip, (x, y) => Painted(c, o, x, y))
  }

  /** Whether the pixels that an operation copies are opaque, if it is a copy. */
  ghost predicate CopiesOpaque(c: Canvas, o: Operation) {
    o.Copy? ==> forall x, y {:trigger c.pixels(x, y)} ::
      Contains(c.bounds, x, y) && Contains(o.source, x, y) ==> Opaque(c.pixels(x, y))
  }

  ghost predicate AllValid(ops: seq<Operation>) {
    forall k :: 0 <= k < |ops| ==> ops[k].Valid()
  }

  ghost function Steps(c: Canvas, ops: seq<Operation>): Canvas
    requires AllValid(ops)
  {
    if ops == [] then c else Step(Steps(c, ops[..|ops| - 1]), ops[|ops| - 1])
  }

  /** The buffer of `s` is the picture on the canvas. */
  ghost predicate Follows(s: Surface, c: Canvas)
    reads s, s.buffer
    requires s.Shape()
  {
    && s.Bounds() == c.bounds && s.ClipArea() == c.clip
    && forall x, y {:trigger s.buffer[y, x]} :: Contains(c.bounds, x, y) ==> s.buffer[y, x] == c.pixels(x, y)
  }

  method ApplyDrawing(s: Surface, o: Operation, ghost c: Canvas)
    requires (o.Draw? || o.Paint?) && s.Valid() && o.Valid() && Follows(s, c)
    modifies s, s.buffer, s.queue
    ensures s.Valid() && Follows(s, Step(c, o))
  {
    if o.Draw? {
      s.DrawBy(o.f, o.x, o.y, o.image);
    } else {
      s.Paint(o.x, o.y, o.image, o.red, o.green, o.blue);
    }
  }

  method ApplyMove(s: Surface, o: Operation, ghost c: Canvas)
    requires o.Move? && s.Valid() && Follows(s, c)
    modifies s, s.buffer, s.queue
    ensures s.Valid() && Follows(s, Step(c, o))
  {
    ghost var c' := Step(c, o);
    s.TransferWithin(o.source, o.f, o.x, o.y);
    forall x, y | Contains(c.bounds, x, y)
      ensures s.buffer[y, x] == c'.pixels(x, y)
    {
      assert c'.pixels(x, y) == MovedPixel(c, o.source, o.f, o.x, o.y, x, y);
    }
  }

  /** A copy keeps the remote layer in step if what it copies is opaque. */
  method ApplyCopy(s: Surface, o: Operation, ghost c: Canvas)
    requires o.Copy? && s.Valid() && Follows(s, c) && CopiesOpaque(c, o)
    modifies s, s.buffer, s.queue
    ensures s.Valid() && Follows(s, Step(c, o))
  {
    ghost var c' := Step(c, o);
    var immediate := s.CopyWithin(o.source, o.x, o.y);
    forall x, y | Contains(c.bounds, x, y)
      ensures s.buffer[y, x] == c'.pixels(x, y)
    {
      assert c'.pixels(x, y) == MovedPixel(c, o.source, KeepSource, o.x, o.y, x, y);
    }
    if immediate {
      forall x, y | Contains(s.Bounds(), x, y)
        ensures s.Remote(x, y) == s.buffer[y, x]
      {
        if Contains(Moved(c.bounds, c.clip, o.source, o.x, o.y), x, y) {
          OpaqueMoves(s.over, c, o, x, y);
        }
      }
    }
  }

  /** Composing an opaque source pixel is copying it. */
  lemma OpaqueMoves(over: (Color, Color) -> Color, c: Canvas, o: Operation, x: int, y: int)
    requires OverLaws(over) && o.Copy? && CopiesOpaque(c, o)
    requires Contains(Moved(c.bounds, c.clip, o.source, o.x, o.y), x, y)
    ensures var moved := MovedPixel(c, o.source, KeepSource, o.x, o.y, x, y);
      over(c.pixels(x, y), moved) == moved
  {
    assert Opaque(c.pixels(x + o.source.x - o.x, y + o.source.y - o.y));
  }

  method Apply(s: Surface, o: Operation, ghost c: Canvas)
    requires s.Valid() && o.Valid() && Follows(s, c) && CopiesOpaque(c, o)
    modifies s, s.buffer, s.queue
    ensures s.Valid() && Follows(s, Step(c, o))
  {
    match o {
      case Draw(_, _, _, _) => ApplyDrawing(s, o, c);
      case Paint(_, _, _, _, _, _) => ApplyDrawing(s, o, c);
      case Set(rect, r, g, b, a) => s.Set(rect.x, rect.y, rect.width, rect.height, r, g, b, a);
      case Move(_, _, _, _) => ApplyMove(s, o, c);
      case Copy(_, _, _) => ApplyCopy(s, o, c);
      case Clip(rect) => s.Clip(rect.x, rect.y, rect.width, rect.height);
      case ResetClip => s.ResetClip();
      case Flush => s.Flush();
    }
  }

  /** Whether every copy of a run copies opaque pixels. */
  ghost predicate AllCopiesOpaque(c: Canvas, ops: seq<Operation>)
    requires AllValid(ops)
  {
    forall k :: 0 <= k < |ops| ==> CopiesOpaque(Steps(c, ops[..k]), ops[k])
  }

  /** Every run: whatever is done to a new surface, and whatever the combine
      heuristic answers on the way, the remote layer after a flush is the canvas. */
  method Run(width: nat, height: nat, realized: bool, ghost over: (Color, Color) -> Color, ops: seq<Operation>)
    returns (s: Surface)
    requires OverLaws(over) && AllValid(ops) && AllCopiesOpaque(Blank(width, height), ops)
    ensures s.Valid() && s.width == width && s.height == height && s.over == over
    ensures forall x, y :: 0 <= x < width && 0 <= y < height ==>
      RemotePixel(over, s.sent, x, y) == Steps(Blank(width, height), ops).pixels(x, y)
  {
    s := new Surface(width, height, realized, over);
    ghost var c := Blank(width, height);
    for k := 0 to |ops|
      invariant s.Valid() && s.width == width && s.height == height && s.over == over
      invariant fresh(s) && fresh(s.buffer) && fresh(s.queue)
      invariant c == Steps(Blank(width, height), ops[..k]) && Follows(s, c)
    {
      Apply(s, ops[k], c);
      c := Step(c, ops[k]);
      assert ops[..k + 1][..k] == ops[..k];
    }
    assert ops[..|ops|] == ops;
    s.Flush();
    forall x, y | 0 <= x < width && 0 <= y < height
      ensures RemotePixel(over, s.sent, x, y) == c.pixels(x, y)
    {
      assert s.Remote(x, y) == s.buffer[y, x];
    }
  }

  /** A transparent and a white pixel, flushed. */
  method TransparentAndWhite(ghost over: (Color, Color) -> Color) returns (s: Surface)
    requires OverLaws(over)
    ensures s.Valid() && s.width == 2 && s.height == 1 && s.over == over && !s.clipped
    ensures s.buffer[0, 0] == 0 && s.buffer[0, 1] == 0xFFFFFFFF
    ensures fresh(s) && fresh(s.buffer) && fresh(s.queue)
  {
    s := new Surface(2, 1, true, over);
    assert Contains(s.Bounds(), 0, 0) && Contains(s.Bounds(), 1, 0);
    s.Set(1, 0, 1, 1, 0xFF, 0xFF, 0xFF, 0xFF);
    assert Argb(0xFF, 0xFF, 0xFF, 0xFF) == 0xFFFFFFFF;
    s.Flush();
  }

  /** What a copy does to one pixel that it reaches. */
  method CopyOnto(s: Surface, source: Rect, dx: int, dy: int, x: int, y: int) returns (immediate: bool)
    requires s.Valid() && Contains(s.Bounds(), x, y) && Contains(s.ClipArea(), x, y)
    requires Contains(Rect(dx, dy, source.width, source.height), x, y)
    requires Contains(s.Bounds(), x + source.x - dx, y + source.y - dy)
    modifies s`queueLength, s`dirty, s`dirtyRect, s`realized, s`sent, s.queue, s.buffer
    ensures s.Shape() && s.buffer[y, x] == old(s.buffer[y + source.y - dy, x + source.x - dx])
    ensures if immediate then s.queueLength == 0 && !s.dirty else s.Valid()
    ensures immediate ==>
      (s.Remote(x, y) == s.buffer[y, x] <==> s.over(old(s.buffer[y, x]), s.buffer[y, x]) == s.buffer[y, x])
  {
    immediate := s.CopyWithin(source, dx, dy);
  }

  /** Why copied pixels must be opaque: a transparent pixel is copied over a white one.
      Sent at once, the copy leaves the remote pixel white, and nothing is pending that
      would correct it. */
  method CopyTransparent(ghost over: (Color, Color) -> Color) returns (s: Surface, immediate: bool)
    requires OverLaws(over) && over(0xFFFFFFFF, 0) == 0xFFFFFFFF
    ensures s.Shape() && s.width == 2 && s.height == 1 && s.over == over && s.buffer[0, 1] == 0
    ensures immediate ==> s.Remote(1, 0) != s.buffer[0, 1] && !s.dirty && s.queueLength == 0
    ensures !immediate ==> s.Valid()
  {
    s := TransparentAndWhite(over);
    immediate := CopyOnto(s, Rect(0, 0, 1, 1), 1, 0, 1, 0);
  }

  // ---------------------------------------------------------------------
  // The calls as the server makes them
  // ---------------------------------------------------------------------

  /** An image is put the way its format asks for, and a transfer names one of the
      sixteen codes of the protocol. */
  datatype Request =
    | DrawImage(x: int, y: int, image: Image)
    | TransferCode(source: Rect, op: TransferFunction, x: int, y: int)
    | Other(operation: Operation)
  {
    function Meaning(): Operation {
      match this
      case DrawImage(x, y, image) => Draw(PutFunction(image.rgbOnly), x, y, image)
      case TransferCode(source, op, x, y) => Move(source, TransferOf(op), x, y)
      case Other(operation) => operation
    }
  }

  function Meanings(requests: seq<Request>): (ops: seq<Operation>)
    ensures |ops| == |requests| && forall k :: 0 <= k < |ops| ==> ops[k] == requests[k].Meaning()
  {
    if requests == [] then [] else Meanings(requests[..|requests| - 1]) + [requests[|requests| - 1].Meaning()]
  }

  method Serve(width: nat, height: nat, realized: bool, ghost over: (Color, Color) -> Color, requests: seq<Request>)
    returns (s: Surface)
    requires OverLaws(over) && forall k :: 0 <= k < |requests| ==> requests[k].Meaning().Valid()
    requires AllCopiesOpaque(Blank(width, height), Meanings(requests))
    ensures s.Valid()
    ensures forall x, y :: 0 <= x < width && 0 <= y < height ==>
      RemotePixel(over, s.sent, x, y) == Steps(Blank(width, height), Meanings(requests)).pixels(x, y)
  {
    s := Run(width, height, realized, over, Meanings(requests));
  }

  // ---------------------------------------------------------------------
  // What the calls mean for the pixels that they reach
  // ---------------------------------------------------------------------

  /** A pixel under an image becomes what the image composed over it should give. */
  lemma ImageMeans(c: Canvas, x: int, y: int, image: Image, px: int, py: int)
    requires image.Valid() && Contains(c.clip, px, py) && Contains(Rect(x, y, image.width, image.height), px, py)
    ensures var after := Step(c, DrawImage(x, y, image).Meaning());
      Composed(image.rgbOnly, image.rows[py - y][px - x], c.pixels(px, py), after.pixels(px, py))
  {
    PutComposes(image.rgbOnly);
  }

  /** A pixel that a transfer reaches becomes what the truth table of its code says of the
      pixel it comes from and the pixel that was there. */
  lemma TransferMeans(c: Canvas, source: Rect, op: TransferFunction, x: int, y: int, px: int, py: int)
    requires Contains(c.clip, px, py) && Contains(Rect(x, y, source.width, source.height), px, py)
    requires Contains(c.bounds, px - x + source.x, py - y + source.y)
    ensures var after := Step(c, TransferCode(source, op, x, y).Meaning());
      var src, dst := c.pixels(px - x + source.x, py - y + source.y), c.pixels(px, py);
      after.pixels(px, py) == Transferred(op, src, dst) && FollowsTable(op, Code(op), src, dst)
  {
    var src, dst := c.pixels(px - x + source.x, py - y + source.y), c.pixels(px, py);
    TransferIsTruthTable(op, src, dst);
    assert px + source.x - x == px - x + source.x && py + source.y - y == py - y + source.y;
  }

  /** A pixel that is set gets the four components. */
  lemma SetMeans(c: Canvas, rect: Rect, red: bv32, green: bv32, blue: bv32, alpha: bv32, px: int, py: int)
    requires red <= 0xFF && green <= 0xFF && blue <= 0xFF && alpha <= 0xFF
    requires Contains(c.clip, px, py) && Contains(rect, px, py)
    ensures HasComponents(Step(c, Set(rect, red, green, blue, alpha)).pixels(px, py), alpha, red, green, blue)
  {
    ArgbComponents(alpha, red, green, blue);
  }

  /** A pixel under a mask gets the three components, opaque, unless the mask is
      transparent there. */
  lemma PaintMeans(c: Canvas, x: int, y: int, image: Image, red: bv32, green: bv32, blue: bv32, px: int, py: int)
    requires red <= 0xFF && green <= 0xFF && blue <= 0xFF && image.Valid()
    requires Contains(c.clip, px, py) && Contains(Rect(x, y, image.width, image.height), px, py)
    ensures var after := Step(c, Paint(x, y, image, red, green, blue));
      if AlphaOf(image.rows[py - y][px - x]) == 0 then after.pixels(px, py) == c.pixels(px, py)
      else HasComponents(after.pixels(px, py), 0xFF, red, green, blue)
  {
    ArgbComponents(0xFF, red, green, blue);
    MaskIsAlpha(image.rows[py - y][px - x]);
  }

  /** Clipping limits drawing to what both the area so far and the rectangle hold; a reset
      lifts all limits but the bounds. Neither changes a pixel. */
  lemma ClipMeans(c: Canvas, rect: Rect, px: int, py: int)
    ensures var after := Step(c, Clip(rect));
      && (Contains(after.clip, px, py) <==> Contains(c.clip, px, py) && Contains(rect, px, py))
      && after.pixels(px, py) == c.pixels(px, py)
    ensures var after := Step(c, ResetClip);
      (Contains(after.clip, px, py) <==> Contains(c.bounds, px, py)) && after.pixels(px, py) == c.pixels(px, py)
  {
  }

  /** A pixel that a copy reaches becomes the pixel it comes from. */
  lemma CopyMeans(c: Canvas, source: Rect, x: int, y: int, px: int, py: int)
    requires Contains(c.clip, px, py) && Contains(Rect(x, y, source.width, source.height), px, py)
    requires Contains(c.bounds, px - x + source.x, py - y + source.y)
    ensures Step(c, Operation.Copy(source, x, y)).pixels(px, py) == c.pixels(px - x + source.x, py - y + source.y)
  {
    assert px + source.x - x == px - x + source.x && py + source.y - y == py - y + source.y;
  }

  /** Outside the clipping area no operation changes a pixel. */
  lemma OutsideStays(c: Canvas, o: Operation, px: int, py: int)
    requires o.Valid() && !Contains(c.clip, px, py)
    ensures Step(c, o).pixels(px, py) == c.pixels(px, py)
  {
  }
}
