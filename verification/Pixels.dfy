/** Pixels, compositing, and the remote layer as the receiver of drawing
    instructions (src/common/surface.c).

    A pixel is the 32-bit ARGB word of the backing buffer. The remote layer is
    not stored anywhere on the server: it is what replaying the instructions sent
    so far yields, one pixel at a time.
  */
module Pixels {
  import opened Rects

  type Color = bv32

  predicate Opaque(c: Color) {
    c & 0xFF000000 == 0xFF000000
  }

  /** The pixel as CAIRO_FORMAT_RGB24 presents it: alpha is ignored. */
  function WithoutAlpha(c: Color): Color {
    c | 0xFF000000
  }

  lemma OpaqueKeeps(c: Color)
    ensures Opaque(c) ==> WithoutAlpha(c) == c
    ensures Opaque(WithoutAlpha(c))
  {
  }

  function Argb(alpha: bv32, red: bv32, green: bv32, blue: bv32): Color {
    (alpha << 24) | (red << 16) | (green << 8) | blue
  }

  function BlendComponent(dst: bv32, src: bv32, alpha: bv32): bv32 {
    var blended := src + dst * (0xFF - alpha);
    if blended > 0xFF then 0xFF else blended
  }

  /** guac_common_surface_argb_blend, as written: the components are not divided
      by 255 after the multiplication. */
  function ArgbBlend(dst: Color, src: Color): Color {
    var dstA, dstR, dstG, dstB := (dst >> 24) & 0xFF, (dst >> 16) & 0xFF, (dst >> 8) & 0xFF, dst & 0xFF;
    var srcA, srcR, srcG, srcB := (src >> 24) & 0xFF, (src >> 16) & 0xFF, (src >> 8) & 0xFF, src & 0xFF;
    if srcA == 0xFF || dstA == 0 then src
    else if srcA == 0 then dst
    else Argb(BlendComponent(dstA, srcA, srcA), BlendComponent(dstR, srcR, srcA),
              BlendComponent(dstG, srcG, srcA), BlendComponent(dstB, srcB, srcA))
  }

  // The four components of a pixel.

  function AlphaOf(c: Color): bv32 { c >> 24 }

  function RedOf(c: Color): bv32 { (c >> 16) & 0xFF }

  function GreenOf(c: Color): bv32 { (c >> 8) & 0xFF }

  function BlueOf(c: Color): bv32 { c & 0xFF }

  predicate HasComponents(c: Color, alpha: bv32, red: bv32, green: bv32, blue: bv32) {
    AlphaOf(c) == alpha && RedOf(c) == red && GreenOf(c) == green && BlueOf(c) == blue
  }

  lemma ArgbComponents(alpha: bv32, red: bv32, green: bv32, blue: bv32)
    requires alpha <= 0xFF && red <= 0xFF && green <= 0xFF && blue <= 0xFF
    ensures HasComponents(Argb(alpha, red, green, blue), alpha, red, green, blue)
  {
  }

  /** A component of premultiplied colors composed over another, as far as a byte holds it:
      the destination is weighted by what the source leaves through, out of 255, and that
      is not scaled back. */
  predicate Blended(src: bv32, dst: bv32, alpha: bv32, result: bv32) {
    var sum := src + dst * (0xFF - alpha);
    (sum <= 0xFF ==> result == sum) && (sum > 0xFF ==> result == 0xFF)
  }

  /** What a source pixel that is put over a destination pixel should give: its color, made
      opaque, if its format has no alpha. If it has, the source where it is opaque or the
      destination is transparent, the destination where the source is transparent, and a
      blend of each component otherwise. */
  predicate Composed(rgbOnly: bool, src: Color, dst: Color, result: Color) {
    ComposedBy(Blended, rgbOnly, src, dst, result)
  }

  /** The same for any way to blend two components by an alpha. */
  predicate ComposedBy(blended: (bv32, bv32, bv32, bv32) -> bool, rgbOnly: bool, src: Color, dst: Color,
                       result: Color)
  {
    if rgbOnly then HasComponents(result, 0xFF, RedOf(src), GreenOf(src), BlueOf(src))
    else if AlphaOf(src) == 0xFF || AlphaOf(dst) == 0 then result == src
    else if AlphaOf(src) == 0 then result == dst
    else
      && blended(AlphaOf(src), AlphaOf(dst), AlphaOf(src), AlphaOf(result))
      && blended(RedOf(src), RedOf(dst), AlphaOf(src), RedOf(result))
      && blended(GreenOf(src), GreenOf(dst), AlphaOf(src), GreenOf(result))
      && blended(BlueOf(src), BlueOf(dst), AlphaOf(src), BlueOf(result))
  }

  lemma BlendedComponent(src: bv32, dst: bv32, alpha: bv32, blended: (bv32, bv32, bv32, bv32) -> bool,
                         blend: (bv32, bv32, bv32) -> bv32) returns (c: bv32)
    requires blended == Blended && blend == BlendComponent
    ensures c == blend(dst, src, alpha) && c <= 0xFF && blended(src, dst, alpha, c)
  {
    c := BlendComponent(dst, src, alpha);
  }

  lemma ComponentsBound(c: Color)
    ensures AlphaOf(c) <= 0xFF && RedOf(c) <= 0xFF && GreenOf(c) <= 0xFF && BlueOf(c) <= 0xFF
  {
  }

  /** A color that is put together from given components. */
  lemma BlendRecombines(src: Color, dst: Color, a: bv32, r: bv32, g: bv32, b: bv32,
                        blend: (bv32, bv32, bv32) -> bv32)
    requires AlphaOf(src) != 0xFF && AlphaOf(src) != 0 && AlphaOf(dst) != 0 && blend == BlendComponent
    requires a == blend(AlphaOf(dst), AlphaOf(src), AlphaOf(src))
    requires r == blend(RedOf(dst), RedOf(src), AlphaOf(src))
    requires g == blend(GreenOf(dst), GreenOf(src), AlphaOf(src))
    requires b == blend(BlueOf(dst), BlueOf(src), AlphaOf(src))
    ensures ArgbBlend(dst, src) == Argb(a, r, g, b)
  {
    ComponentsBound(src);
    ComponentsBound(dst);
  }

  lemma BlendComposes(src: Color, dst: Color)
    ensures Composed(false, src, dst, ArgbBlend(dst, src))
  {
    if AlphaOf(src) == 0xFF || AlphaOf(src) == 0 || AlphaOf(dst) == 0 {
      BlendPlain(src, dst);
    } else {
      BlendMixes(src, dst);
    }
  }

  lemma BlendMixes(src: Color, dst: Color)
    requires AlphaOf(src) != 0xFF && AlphaOf(src) != 0 && AlphaOf(dst) != 0
    ensures Composed(false, src, dst, ArgbBlend(dst, src))
  {
    var blended, blend := Blended, BlendComponent;
    var a := BlendedComponent(AlphaOf(src), AlphaOf(dst), AlphaOf(src), blended, blend);
    var r := BlendedComponent(RedOf(src), RedOf(dst), AlphaOf(src), blended, blend);
    var g := BlendedComponent(GreenOf(src), GreenOf(dst), AlphaOf(src), blended, blend);
    var b := BlendedComponent(BlueOf(src), BlueOf(dst), AlphaOf(src), blended, blend);
    BlendRecombines(src, dst, a, r, g, b, blend);
    MixedBy(src, dst, a, r, g, b, blended);
  }

  lemma MixedBy(src: Color, dst: Color, a: bv32, r: bv32, g: bv32, b: bv32,
                blended: (bv32, bv32, bv32, bv32) -> bool)
    requires AlphaOf(src) != 0xFF && AlphaOf(src) != 0 && AlphaOf(dst) != 0
    requires a <= 0xFF && r <= 0xFF && g <= 0xFF && b <= 0xFF
    requires blended(AlphaOf(src), AlphaOf(dst), AlphaOf(src), a) && blended(RedOf(src), RedOf(dst), AlphaOf(src), r)
    requires blended(GreenOf(src), GreenOf(dst), AlphaOf(src), g)
    requires blended(BlueOf(src), BlueOf(dst), AlphaOf(src), b)
    ensures ComposedBy(blended, false, src, dst, Argb(a, r, g, b))
  {
    ArgbComponents(a, r, g, b);
  }

  lemma WithoutAlphaKeeps(c: Color)
    ensures HasComponents(WithoutAlpha(c), 0xFF, RedOf(c), GreenOf(c), BlueOf(c))
  {
  }

  lemma MaskIsAlpha(c: Color)
    ensures c & 0xFF000000 == 0 <==> AlphaOf(c) == 0
  {
  }

  lemma BlendPlain(src: Color, dst: Color)
    requires AlphaOf(src) == 0xFF || AlphaOf(src) == 0 || AlphaOf(dst) == 0
    ensures ArgbBlend(dst, src) == if AlphaOf(src) == 0xFF || AlphaOf(dst) == 0 then src else dst
  {
    ComponentsBound(src);
    ComponentsBound(dst);
  }

  /** What is put on an opaque pixel leaves it opaque. */
  lemma ComposedOpaque(rgbOnly: bool, src: Color, dst: Color, result: Color)
    requires Composed(rgbOnly, src, dst, result) && AlphaOf(dst) == 0xFF
    ensures AlphaOf(result) == 0xFF
  {
  }

  /** An image handed to the surface: rows of pixels and whether its format lacks alpha. */
  datatype Image = Image(width: nat, height: nat, rows: seq<seq<Color>>, rgbOnly: bool) {
    ghost predicate Valid() {
      |rows| == height && forall j :: 0 <= j < height ==> |rows[j]| == width
    }

    function Area(): Rect {
      Rect(0, 0, width, height)
    }
  }

  datatype TransferFunction =
    | Black | White | Src | Dest | NSrc | NDest
    | And | Nand | Or | Nor | Xor | Xnor
    | NSrcAnd | NSrcNand | NSrcOr | NSrcNor

  /** The new destination pixel of __guac_common_surface_transfer_int. */
  function Transferred(op: TransferFunction, src: Color, dst: Color): Color {
    match op
    case Black => 0xFF000000
    case White => 0xFFFFFFFF
    case Src => src
    case Dest => dst
    case NSrc => src ^ 0x00FFFFFF
    case NDest => dst ^ 0x00FFFFFF
    case And => dst & (0xFF000000 | src)
    case Nand => (dst & (0xFF000000 | src)) ^ 0x00FFFFFF
    case Or => dst | (0x00FFFFFF & src)
    case Nor => (dst | (0x00FFFFFF & src)) ^ 0x00FFFFFF
    case Xor => dst ^ (0x00FFFFFF & src)
    case Xnor => (dst ^ (0x00FFFFFF & src)) ^ 0x00FFFFFF
    case NSrcAnd => dst & (0xFF000000 | (src ^ 0x00FFFFFF))
    case NSrcNand => (dst & (0xFF000000 | (src ^ 0x00FFFFFF))) ^ 0x00FFFFFF
    case NSrcOr => dst | (0x00FFFFFF & (src ^ 0x00FFFFFF))
    case NSrcNor => (dst | (0x00FFFFFF & (src ^ 0x00FFFFFF))) ^ 0x00FFFFFF
  }

  /** The code of a transfer function in the protocol. */
  function Code(op: TransferFunction): bv32 {
    match op
    case Black => 0x0
    case White => 0xF
    case Src => 0x3
    case Dest => 0x5
    case NSrc => 0xC
    case NDest => 0xA
    case And => 0x1
    case Nand => 0xE
    case Or => 0x7
    case Nor => 0x8
    case Xor => 0x6
    case Xnor => 0x9
    case NSrcAnd => 0x4
    case NSrcNand => 0xB
    case NSrcOr => 0xD
    case NSrcNor => 0x2
  }

  /** The pixel whose alpha is kept. */
  function GivesAlpha(op: TransferFunction, src: Color, dst: Color): Color {
    match op
    case Black | White => 0xFF000000
    case Src | NSrc => src
    case _ => dst
  }

  predicate FollowsTable(op: TransferFunction, code: bv32, src: Color, dst: Color) {
    Transferred(op, src, dst) ==
      (0xFF000000 & GivesAlpha(op, src, dst)) |
      (Mask(code, 8) & !src & !dst) | (Mask(code, 4) & !src & dst) |
      (Mask(code, 2) & src & !dst) | (Mask(code, 1) & src & dst)
  }

  /** All bits, if one bit of a code is set. */
  function Mask(code: bv32, bit: bv32): bv32 {
    if code & bit != 0 then 0x00FFFFFF else 0
  }

  lemma TableBlack(src: Color, dst: Color)
    ensures FollowsTable(Black, Code(Black), src, dst) && FollowsTable(White, Code(White), src, dst)
  {
  }

  lemma TableSrc(src: Color, dst: Color)
    ensures FollowsTable(Src, Code(Src), src, dst) && FollowsTable(NSrc, Code(NSrc), src, dst)
  {
  }

  lemma TableDest(src: Color, dst: Color)
    ensures FollowsTable(Dest, Code(Dest), src, dst) && FollowsTable(NDest, Code(NDest), src, dst)
  {
  }

  lemma TableAnd(src: Color, dst: Color)
    ensures FollowsTable(And, Code(And), src, dst) && FollowsTable(Nand, Code(Nand), src, dst)
  {
  }

  lemma TableOr(src: Color, dst: Color)
    ensures FollowsTable(Or, Code(Or), src, dst) && FollowsTable(Nor, Code(Nor), src, dst)
  {
  }

  lemma TableXor(src: Color, dst: Color)
    ensures FollowsTable(Xor, Code(Xor), src, dst) && FollowsTable(Xnor, Code(Xnor), src, dst)
  {
  }

  lemma TableNSrcAnd(src: Color, dst: Color)
    ensures FollowsTable(NSrcAnd, Code(NSrcAnd), src, dst) && FollowsTable(NSrcNand, Code(NSrcNand), src, dst)
  {
  }

  lemma TableNSrcOr(src: Color, dst: Color)
    ensures FollowsTable(NSrcOr, Code(NSrcOr), src, dst) && FollowsTable(NSrcNor, Code(NSrcNor), src, dst)
  {
  }

  /** What holds of each of the sixteen functions holds of all. */
  lemma EachOfSixteen(holds: TransferFunction -> bool, op: TransferFunction)
    requires holds(Black) && holds(White) && holds(Src) && holds(Dest) && holds(NSrc) && holds(NDest)
    requires holds(And) && holds(Nand) && holds(Or) && holds(Nor) && holds(Xor) && holds(Xnor)
    requires holds(NSrcAnd) && holds(NSrcNand) && holds(NSrcOr) && holds(NSrcNor)
    ensures holds(op)
  {
  }

  /** The four bits of a code are the truth table of its function: what becomes of a bit of
      the color where source and destination are 0 and 0, 0 and 1, 1 and 0, or both 1. */
  lemma TransferIsTruthTable(op: TransferFunction, src: Color, dst: Color)
    ensures FollowsTable(op, Code(op), src, dst)
  {
    TableBlack(src, dst);
    TableSrc(src, dst);
    TableDest(src, dst);
    TableAnd(src, dst);
    TableOr(src, dst);
    TableXor(src, dst);
    TableNSrcAnd(src, dst);
    TableNSrcOr(src, dst);
    EachOfSixteen(o => FollowsTable(o, Code(o), src, dst), op);
  }

  /** The function of source and destination pixel that a transfer code stands for. */
  function TransferOf(op: TransferFunction): (Color, Color) -> Color {
    (src, dst) => Transferred(op, src, dst)
  }

  /** The blending of the server obeys the two laws asked of the receiver. */
  lemma BlendIsOver()
    ensures OverLaws(ArgbBlend)
  {
    forall dst: Color, src: Color | Opaque(src) || dst == 0
      ensures ArgbBlend(dst, src) == src
    {
    }
  }

  /** A transparent pixel composed over an opaque one leaves it, where a copy would not:
      a copy that is sent at once needs opaque sources. */
  lemma TransparentIsNotCopied()
    ensures OverLaws(ArgbBlend) && ArgbBlend(0xFFFFFFFF, 0) == 0xFFFFFFFF != 0
  {
    BlendIsOver();
  }

  // ---------------------------------------------------------------------
  // The remote layer
  // ---------------------------------------------------------------------

  /** What is sent over the socket for one layer. */
  datatype Instruction =
    | Clear(rect: Rect)                                        // "rect", "cfill" with ROUT and opaque black
    | Fill(rect: Rect, color: Color)                           // "rect", "cfill" with OVER
    | Bitmap(rect: Rect, rows: seq<seq<Color>>, rgbOnly: bool)  // "img" with OVER
    | Transfer(f: (Color, Color) -> Color, sx: int, sy: int, rect: Rect)  // "transfer" within the layer
    | Copy(sx: int, sy: int, rect: Rect)                       // "copy" within the layer with OVER

  /** How the receiver composites with OVER. Nothing else is known of it: an
      opaque source wins, and over a cleared pixel the source is kept. */
  ghost predicate OverLaws(over: (Color, Color) -> Color) {
    forall dst, src :: Opaque(src) || dst == 0 ==> over(dst, src) == src
  }

  ghost predicate Shaped(instr: Instruction) {
    instr.Bitmap? ==>
      |instr.rows| == instr.rect.height &&
      forall j :: 0 <= j < |instr.rows| ==> |instr.rows[j]| == instr.rect.width
  }

  /** One remote pixel after `instr`, from that pixel and (for a transfer) the
      source pixel before it (of a transfer or a copy). */
  ghost function Shown(over: (Color, Color) -> Color, instr: Instruction, x: int, y: int,
                       before: Color, source: Color): Color
  {
    if !Contains(instr.rect, x, y) || !Shaped(instr) then before
    else match instr
      case Clear(_) => 0
      case Fill(_, color) => over(before, color)
      case Bitmap(r, rows, rgbOnly) =>
        var p := rows[y - r.y][x - r.x];
        over(before, if rgbOnly then WithoutAlpha(p) else p)
      case Transfer(f, _, _, _) => f(source, before)
      case Copy(_, _, _) => over(before, source)
  }

  function SourceX(instr: Instruction, x: int): int {
    if instr.Transfer? || instr.Copy? then instr.sx + x - instr.rect.x else x
  }

  function SourceY(instr: Instruction, y: int): int {
    if instr.Transfer? || instr.Copy? then instr.sy + y - instr.rect.y else y
  }

  /** The remote pixel after all instructions, starting from a transparent layer. */
  ghost function RemotePixel(over: (Color, Color) -> Color, sent: seq<Instruction>, x: int, y: int): Color
    decreases |sent|
  {
    if sent == [] then 0
    else
      var earlier, instr := sent[..|sent| - 1], sent[|sent| - 1];
      Shown(over, instr, x, y, RemotePixel(over, earlier, x, y),
            RemotePixel(over, earlier, SourceX(instr, x), SourceY(instr, y)))
  }

  lemma RemoteStep(over: (Color, Color) -> Color, sent: seq<Instruction>, instr: Instruction, x: int, y: int)
    ensures RemotePixel(over, sent + [instr], x, y) ==
            Shown(over, instr, x, y, RemotePixel(over, sent, x, y),
                  RemotePixel(over, sent, SourceX(instr, x), SourceY(instr, y)))
  {
    assert (sent + [instr])[..|sent|] == sent;
  }

  /** A transfer or a copy changes exactly its rectangle, by a function of source and
      destination pixel. */
  lemma MoveShows(over: (Color, Color) -> Color, sent: seq<Instruction>, move: Instruction,
                  f: (Color, Color) -> Color, x: int, y: int)
    requires move.Transfer? || move.Copy?
    requires forall src, dst :: f(src, dst) == if move.Transfer? then move.f(src, dst) else over(dst, src)
    ensures RemotePixel(over, sent + [move], x, y) ==
      if Contains(move.rect, x, y)
      then f(RemotePixel(over, sent, move.sx + x - move.rect.x, move.sy + y - move.rect.y),
             RemotePixel(over, sent, x, y))
      else RemotePixel(over, sent, x, y)
  {
    RemoteStep(over, sent, move, x, y);
  }

  /** Lossless image data, preceded by a clear unless every pixel is opaque,
      replaces exactly its rectangle. */
  lemma BitmapReplaces(over: (Color, Color) -> Color, sent: seq<Instruction>, image: Instruction, x: int, y: int)
    requires OverLaws(over) && image.Bitmap? && Shaped(image)
    requires image.rgbOnly && Contains(image.rect, x, y) ==> Opaque(image.rows[y - image.rect.y][x - image.rect.x])
    ensures var cleared := if image.rgbOnly then sent else sent + [Clear(image.rect)];
      RemotePixel(over, cleared + [image], x, y) ==
        if Contains(image.rect, x, y) then image.rows[y - image.rect.y][x - image.rect.x]
        else RemotePixel(over, sent, x, y)
  {
    var cleared := if image.rgbOnly then sent else sent + [Clear(image.rect)];
    RemoteStep(over, cleared, image, x, y);
    if !image.rgbOnly {
      RemoteStep(over, sent, Clear(image.rect), x, y);
    } else if Contains(image.rect, x, y) {
      OpaqueKeeps(image.rows[y - image.rect.y][x - image.rect.x]);
    }
  }
}
