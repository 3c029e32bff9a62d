/** Palettes of images with few colors (src/libguac/palette.c) and the indexed PNG rows
    written from them (src/libguac/encode-png.c).

    The palette is an open-addressing hash table. The laws here say that it behaves as
    the set of the colors of the image.
  */
module Palettes {

  const SLOTS := 4096
  const CAPACITY := 256

  /** A pixel of the image; the top byte is ignored. */
  type Pixel = p: int | 0 <= p < 0x1_0000_0000

  type Rgb = c: int | 0 <= c < 0x100_0000

  type Slot = h: int | 0 <= h < SLOTS

  datatype PngColor = PngColor(red: nat, green: nat, blue: nat)

  datatype Entry = Entry(index: nat, color: Rgb)

  function ColorOf(p: Pixel): Rgb {
    p % 0x100_0000
  }

  /** The exclusive or of the upper and the lower twelve bits. */
  function Hash(color: Rgb): Slot {
    ((color / 4096) as bv12 ^ (color % 4096) as bv12) as int
  }

  function Channels(color: Rgb): PngColor {
    PngColor(color / 65536 % 256, color / 256 % 256, color % 256)
  }

  /** The color that a decoder makes of a palette entry. */
  function Joined(c: PngColor): int {
    c.red * 65536 + c.green * 256 + c.blue
  }

  lemma ChannelsJoin(color: Rgb)
    ensures Joined(Channels(color)) == color
    ensures Channels(color).red < 256 && Channels(color).green < 256 && Channels(color).blue < 256
  {
    assert color / 256 / 256 == color / 65536;
    assert color / 65536 < 256;
  }

  /** What a pixel shows: three bytes, of which the lowest is the blue one. */
  predicate Has(p: Pixel, c: PngColor) {
    c.red == p / 0x1_0000 % 0x100 && c.green == p / 0x100 % 0x100 && c.blue == p % 0x100
  }

  /** The channels of the color of a pixel are what it shows. */
  lemma ChannelsShow(p: Pixel)
    ensures Has(p, Channels(ColorOf(p)))
  {
    var q := p / 0x100_0000;
    assert p == q * 0x100_0000 + ColorOf(p);
    assert p / 0x100 == q * 0x1_0000 + ColorOf(p) / 0x100;
    assert p / 0x1_0000 == q * 0x100 + ColorOf(p) / 0x1_0000;
  }

  /** Pixels have the same color exactly if they show the same. */
  lemma SameColorExactlyWhen(p: Pixel, q: Pixel)
    ensures ColorOf(p) == ColorOf(q) <==> forall c :: Has(p, c) <==> Has(q, c)
  {
    ChannelsShow(p);
    ChannelsShow(q);
    ChannelsJoin(ColorOf(p));
    ChannelsJoin(ColorOf(q));
  }

  /** How many times to probe onwards to get from `a` to `b`. */
  function Distance(a: Slot, b: Slot): nat {
    if a <= b then b - a else b - a + SLOTS
  }

  /** Fewer values than slots leave some slot out. */
  lemma {:induction false} SomeLeftOut(taken: seq<Slot>, n: nat) returns (h: Slot)
    requires |taken| < n <= SLOTS
    ensures h < n && h !in taken
  {
    if n - 1 !in taken {
      h := n - 1;
    } else {
      var i :| 0 <= i < |taken| && taken[i] == n - 1;
      var rest := taken[..i] + taken[i + 1..];
      h := SomeLeftOut(rest, n - 1);
      forall j | 0 <= j < |taken| && j != i
        ensures taken[j] in rest
      {
        assert taken[j] == rest[if j < i then j else j - 1];
      }
    }
  }

  ghost predicate NoDuplicates(s: seq<Rgb>) {
    forall i, j :: 0 <= i < j < |s| ==> s[i] != s[j]
  }

  ghost function Elements(s: seq<Rgb>): set<Rgb> {
    set c | c in s
  }

  lemma {:induction false} ElementsCount(s: seq<Rgb>)
    requires NoDuplicates(s)
    ensures |Elements(s)| == |s|
  {
    if |s| > 0 {
      var n := |s| - 1;
      ElementsCount(s[..n]);
      assert s[n] !in s[..n];
      assert s == s[..n] + [s[n]];
      assert Elements(s) == Elements(s[..n]) + {s[n]};
    } else {
      assert Elements(s) == {};
    }
  }

  lemma SubsetCount(a: set<Rgb>, b: set<Rgb>)
    requires a <= b
    ensures |a| <= |b|
  {
    assert b == a + (b - a);
  }

  /** The laws of the table hold whatever the functions that hash and split a color are. */
  class Palette {
    const hash: Rgb -> Slot
    const channels: Rgb -> PngColor
    const entries: array<Entry>
    const colors: array<PngColor>
    var size: nat

    /** The stored colors in the order of their indices, and where each is stored. */
    ghost var known: seq<Rgb>
    ghost var slots: seq<Slot>

    ghost predicate Shape()
      reads this
    {
      && entries.Length == SLOTS && colors.Length == CAPACITY
      && size == |known| == |slots| <= CAPACITY
    }

    /** Every color is in its slot, and nothing else is in the table. */
    ghost predicate Stored()
      reads this, entries
      requires Shape()
    {
      && (forall k {:trigger known[k]} :: 0 <= k < size ==> entries[slots[k]] == Entry(k + 1, known[k]))
      && (forall h :: 0 <= h < SLOTS && entries[h].index != 0 ==>
            entries[h].index <= size && slots[entries[h].index - 1] == h)
    }

    /** The colors as libpng wants them, in the same order. */
    ghost predicate Painted()
      reads this, colors
      requires Shape()
    {
      forall k :: 0 <= k < size ==> colors[k] == channels(known[k])
    }

    /** No slot is free from `start` up to, and not including, `end`. */
    ghost predicate Full(start: Slot, end: Slot)
      reads this, entries
      requires entries.Length == SLOTS
    {
      forall h :: 0 <= h < SLOTS && Distance(start, h) < Distance(start, end) ==> entries[h].index != 0
    }

    /** No slot is free between the hash of a color and the slot it is in. */
    ghost predicate Probed()
      reads this, entries
      requires Shape()
    {
      forall k :: 0 <= k < size ==> Full(hash(known[k]), slots[k])
    }

    ghost predicate Valid()
      reads this, entries
    {
      Shape() && Stored() && Probed() && NoDuplicates(known)
    }

    constructor (hash: Rgb -> Slot, channels: Rgb -> PngColor)
      ensures this.hash == hash && this.channels == channels
      ensures Valid() && Painted() && known == [] && fresh(entries) && fresh(colors)
    {
      this.hash, this.channels := hash, channels;
      entries := new Entry[SLOTS](_ => Entry(0, 0));
      colors := new PngColor[CAPACITY](_ => PngColor(0, 0, 0));
      size, known, slots := 0, [], [];
    }

    /** A free slot exists, since there are far more slots than colors. */
    lemma FreeSlot() returns (free: Slot)
      requires Valid()
      ensures entries[free].index == 0
    {
      forall h | 0 <= h < SLOTS && entries[h].index != 0
        ensures h in slots
      {
        assert slots[entries[h].index - 1] == h;
      }
      free := SomeLeftOut(slots, SLOTS);
    }

    /** Whether probing for `color` from `start` has reached `h` without finding it. */
    ghost predicate Passed(start: Slot, color: Rgb, h: Slot)
      reads this, entries
      requires entries.Length == SLOTS
    {
      && Full(start, h)
      && forall g :: 0 <= g < SLOTS && Distance(start, g) < Distance(start, h) ==> entries[g].color != color
    }

    /** Reaching a free slot means that the color is not stored. */
    lemma NotStored(color: Rgb, h: Slot)
      requires Valid() && Passed(hash(color), color, h) && entries[h].index == 0
      ensures color !in known
    {
      forall k | 0 <= k < size
        ensures known[k] != color
      {
        assert entries[slots[k]] == Entry(k + 1, known[k]);
        assert Full(hash(known[k]), slots[k]);
      }
    }

    /** The search that alloc and find share: it ends, at the slot that holds the color
        or else at a free slot. */
    method Probe(color: Rgb) returns (h: Slot)
      requires Valid()
      ensures entries[h].index == 0 ==> Passed(hash(color), color, h) && color !in known
      ensures entries[h].index != 0 ==> entries[h].index <= size && known[entries[h].index - 1] == color
    {
      var start := hash(color);
      h := start;
      ghost var free := FreeSlot();
      while entries[h].index != 0 && entries[h].color != color
        invariant Passed(start, color, h)
        invariant Distance(start, h) <= Distance(start, free)
        decreases Distance(start, free) - Distance(start, h)
      {
        h := Advance(start, color, h, free);
      }
      if entries[h].index == 0 {
        NotStored(color, h);
      }
    }

    /** The index of a color, or -1 if it is not stored. */
    method Find(color: Rgb) returns (index: int)
      requires Valid()
      ensures color in known ==> 0 <= index < size && known[index] == color
      ensures color !in known ==> index == -1
    {
      var h := Probe(color);
      index := if entries[h].index == 0 then -1 else entries[h].index - 1;
    }

    /** Moves on past an occupied slot that holds another color. */
    method Advance(start: Slot, color: Rgb, h: Slot, ghost free: Slot) returns (next: Slot)
      requires Shape() && Passed(start, color, h) && entries[free].index == 0
      requires entries[h].index != 0 && entries[h].color != color
      requires Distance(start, h) <= Distance(start, free)
      ensures Passed(start, color, next)
      ensures Distance(start, next) == Distance(start, h) + 1 <= Distance(start, free)
    {
      next := (h + 1) % SLOTS;
      assert h != free;
    }

    /** Stores a new color in the free slot where the search for it ended. */
    method Store(color: Rgb, h: Slot)
      requires Valid() && size < CAPACITY && Passed(hash(color), color, h) && entries[h].index == 0
      requires color !in known
      modifies this, entries
      ensures Valid() && known == old(known) + [color]
    {
      size := size + 1;
      entries[h] := Entry(size, color);
      known, slots := known + [color], slots + [h];
      forall k | 0 <= k < size
        ensures Full(hash(known[k]), slots[k])
      {
        assert k < size - 1 ==> old(Full(hash(known[k]), slots[k]));
      }
    }

    /** Writes a color at the end of those given to libpng. */
    method Paint(color: Rgb)
      requires Shape() && Painted() && size < CAPACITY
      modifies colors
      ensures Shape() && Painted() && colors[size] == channels(color)
    {
      colors[size] := channels(color);
    }

    method Insert(color: Rgb, h: Slot)
      requires Valid() && Painted() && size < CAPACITY && color !in known
      requires Passed(hash(color), color, h) && entries[h].index == 0
      modifies this, entries, colors
      ensures Valid() && Painted() && known == old(known) + [color]
    {
      Paint(color);
      assert Valid();
      ghost var painted := colors[..];
      Store(color, h);
      forall k | 0 <= k < size
        ensures colors[k] == channels(known[k])
      {
        assert colors[k] == painted[k];
      }
    }

    /** Makes sure that a color is stored, unless it is new and there is no room. */
    method Add(color: Rgb) returns (ok: bool)
      requires Valid() && Painted()
      modifies this, entries, colors
      ensures Valid() && Painted()
      ensures ok <==> color in old(known) || old(size) < CAPACITY
      ensures known == if ok && color !in old(known) then old(known) + [color] else old(known)
    {
      var h := Probe(color);
      if entries[h].index != 0 {
        return true;
      }
      if size == CAPACITY {
        return false;
      }
      Insert(color, h);
      return true;
    }
  }

  /** The rows of an image. */
  type Picture = seq<seq<Pixel>>

  /** The colors among the first pixels of a row. */
  ghost function RowColors(row: seq<Pixel>): set<Rgb> {
    set p | p in row :: ColorOf(p)
  }

  ghost function PictureColors(picture: Picture): set<Rgb> {
    set row, p | row in picture && p in row :: ColorOf(p)
  }

  lemma RowGrows(row: seq<Pixel>, x: nat)
    requires x < |row|
    ensures RowColors(row[..x + 1]) == RowColors(row[..x]) + {ColorOf(row[x])}
    ensures ColorOf(row[x]) in RowColors(row)
  {
    assert row[..x + 1] == row[..x] + [row[x]];
  }

  lemma PictureGrows(picture: Picture, y: nat)
    requires y < |picture|
    ensures PictureColors(picture[..y + 1]) == PictureColors(picture[..y]) + RowColors(picture[y])
    ensures PictureColors(picture[..y + 1]) <= PictureColors(picture)
  {
    assert picture[..y + 1] == picture[..y] + [picture[y]];
    assert picture == picture[..y + 1] + picture[y + 1..];
  }

  lemma RowWithin(picture: Picture, y: nat)
    requires y < |picture|
    ensures RowColors(picture[y]) <= PictureColors(picture)
  {
  }

  /** What a palette that is full says of a color that it lacks. */
  lemma TooMany(known: seq<Rgb>, color: Rgb, all: set<Rgb>)
    requires NoDuplicates(known) && |known| == CAPACITY && color !in known
    requires Elements(known) <= all && color in all
    ensures |all| > CAPACITY
  {
    ElementsCount(known);
    SubsetCount(Elements(known) + {color}, all);
  }

  lemma KnownGrows(before: seq<Rgb>, known: seq<Rgb>, color: Rgb)
    requires known == if color in before then before else before + [color]
    ensures Elements(known) == Elements(before) + {color}
  {
  }

  /** Stores the color of one pixel of a picture whose colors are `all`. */
  method AddPixel(palette: Palette, color: Rgb, ghost all: set<Rgb>) returns (ok: bool)
    requires palette.Valid() && palette.Painted()
    requires Elements(palette.known) <= all && color in all
    modifies palette, palette.entries, palette.colors
    ensures palette.Valid() && palette.Painted()
    ensures ok ==> Elements(palette.known) == Elements(old(palette.known)) + {color}
    ensures !ok ==> |all| > CAPACITY
  {
    ghost var before := palette.known;
    ok := palette.Add(color);
    if ok {
      KnownGrows(before, palette.known, color);
    } else {
      TooMany(before, color, all);
    }
  }

  /** Stores the colors of one row. */
  method AddRow(palette: Palette, row: seq<Pixel>, ghost all: set<Rgb>) returns (ok: bool)
    requires palette.Valid() && palette.Painted()
    requires Elements(palette.known) <= all && RowColors(row) <= all
    modifies palette, palette.entries, palette.colors
    ensures palette.Valid() && palette.Painted()
    ensures ok ==> Elements(palette.known) == Elements(old(palette.known)) + RowColors(row)
    ensures !ok ==> |all| > CAPACITY
  {
    ghost var start := Elements(palette.known);
    var x := 0;
    while x < |row|
      invariant x <= |row| && palette.Valid() && palette.Painted()
      invariant Elements(palette.known) == start + RowColors(row[..x])
      invariant Elements(palette.known) <= all
    {
      var color := ColorOf(row[x]);
      RowGrows(row, x);
      ok := AddPixel(palette, color, all);
      if !ok {
        return;
      }
      x := x + 1;
    }
    assert row[..x] == row;
    ok := true;
  }

  /** Builds the palette of a picture: it exists exactly if the picture has at most 256
      colors, and then holds each of these colors once. */
  method Build(picture: Picture) returns (palette: Palette?)
    ensures palette != null <==> |PictureColors(picture)| <= 256
    ensures palette != null ==> fresh(palette) && fresh(palette.entries) && fresh(palette.colors)
    ensures palette != null ==> palette.Valid() && palette.Painted()
    ensures palette != null ==> palette.channels == Channels
    ensures palette != null ==> Elements(palette.known) == PictureColors(picture)
  {
    var made := new Palette(Hash, Channels);
    var y := 0;
    while y < |picture|
      invariant y <= |picture| && made.Valid() && made.Painted()
      invariant Elements(made.known) == PictureColors(picture[..y])
      modifies made, made.entries, made.colors
    {
      PictureGrows(picture, y);
      RowWithin(picture, y);
      var ok := AddRow(made, picture[y], PictureColors(picture));
      if !ok {
        return null;
      }
      y := y + 1;
    }
    assert picture[..y] == picture;
    ElementsCount(made.known);
    palette := made;
  }

  // ---------------------------------------------------------------------
  // Indexed PNG
  // ---------------------------------------------------------------------

  /** What is handed to libpng, or nothing if the image is left to the PNG writer of
      Cairo. */
  datatype Png = Indexed(bpp: nat, colors: seq<PngColor>, rows: seq<seq<nat>>) | LeftToCairo

  function Power2(n: nat): (p: nat)
    ensures p > 0
  {
    if n == 0 then 1 else 2 * Power2(n - 1)
  }

  predicate Depth(bpp: nat) {
    bpp == 1 || bpp == 2 || bpp == 4 || bpp == 8
  }

  /** The least bit depth of PNG that can index a palette. */
  function BitsFor(size: nat): (bpp: nat)
    requires size <= CAPACITY
    ensures Depth(bpp) && size <= Power2(bpp)
    ensures forall fewer :: Depth(fewer) && size <= Power2(fewer) ==> bpp <= fewer
  {
    assert Power2(1) == 2 && Power2(2) == 4 && Power2(4) == 16 && Power2(8) == 256;
    if size <= 2 then 1 else if size <= 4 then 2 else if size <= 16 then 4 else 8
  }

  /** Whether a row of indices shows a row of pixels. */
  ghost predicate Shows(colors: seq<PngColor>, indices: seq<nat>, row: seq<Pixel>) {
    && |indices| == |row|
    && forall x :: 0 <= x < |row| ==>
         indices[x] < |colors| && Has(row[x], colors[indices[x]])
  }

  /** The index of the color of one pixel. */
  method PixelIndex(palette: Palette, row: seq<Pixel>, x: nat) returns (index: nat)
    requires palette.Valid() && RowColors(row) <= Elements(palette.known) && x < |row|
    ensures IndexOf(palette.known, index, row[x])
  {
    RowGrows(row, x);
    index := palette.Find(ColorOf(row[x]));
  }

  /** The index of every pixel of a row. */
  method WriteRow(palette: Palette, row: seq<Pixel>) returns (indices: seq<nat>)
    requires palette.Valid() && RowColors(row) <= Elements(palette.known)
    ensures Indexes(palette.known, indices, row)
  {
    indices := [];
    var x := 0;
    while x < |row|
      invariant x == |indices| <= |row|
      invariant forall i :: 0 <= i < x ==> IndexOf(palette.known, indices[i], row[i])
    {
      var index := PixelIndex(palette, row, x);
      indices := indices + [index];
      x := x + 1;
    }
  }

  ghost predicate IndexOf(known: seq<Rgb>, index: nat, pixel: Pixel) {
    index < |known| && known[index] == ColorOf(pixel)
  }

  ghost predicate Indexes(known: seq<Rgb>, indices: seq<nat>, row: seq<Pixel>) {
    && |indices| == |row|
    && forall x :: 0 <= x < |row| ==> IndexOf(known, indices[x], row[x])
  }

  /** Indices into the stored colors show the row through the colors given to libpng. */
  lemma IndexesShow(known: seq<Rgb>, colors: seq<PngColor>, indices: seq<nat>, row: seq<Pixel>)
    requires |colors| == |known| && forall k :: 0 <= k < |known| ==> colors[k] == Channels(known[k])
    requires Indexes(known, indices, row)
    ensures Shows(colors, indices, row)
  {
    forall x | 0 <= x < |row|
      ensures indices[x] < |colors| && Has(row[x], colors[indices[x]])
    {
      assert IndexOf(known, indices[x], row[x]);
      ChannelsShow(row[x]);
    }
  }

  /** An image is written with a palette exactly if its format is RGB24 and it has at
      most 256 colors. Then every pixel is shown in its own color by an index that fits
      the bit depth, and no smaller depth would do. */
  method WritePng(picture: Picture, rgb24: bool) returns (png: Png)
    ensures png.Indexed? <==> rgb24 && |PictureColors(picture)| <= 256
    ensures png.Indexed? ==>
      && |png.colors| == |PictureColors(picture)|
      && Depth(png.bpp) && |png.colors| <= Power2(png.bpp)
      && (forall fewer :: Depth(fewer) && |png.colors| <= Power2(fewer) ==> png.bpp <= fewer)
      && |png.rows| == |picture|
      && forall y :: 0 <= y < |picture| ==> Shows(png.colors, png.rows[y], picture[y])
  {
    if !rgb24 {
      return LeftToCairo;
    }
    var palette := Build(picture);
    if palette == null {
      return LeftToCairo;
    }
    ElementsCount(palette.known);
    var rows := WriteRows(palette, picture);
    var colors := palette.colors[..palette.size];
    forall y | 0 <= y < |picture|
      ensures Shows(colors, rows[y], picture[y])
    {
      IndexesShow(palette.known, colors, rows[y], picture[y]);
    }
    png := Indexed(BitsFor(palette.size), colors, rows);
  }

  method WriteRows(palette: Palette, picture: Picture) returns (rows: seq<seq<nat>>)
    requires palette.Valid() && PictureColors(picture) <= Elements(palette.known)
    ensures |rows| == |picture|
    ensures forall y :: 0 <= y < |picture| ==> Indexes(palette.known, rows[y], picture[y])
  {
    rows := [];
    var y := 0;
    while y < |picture|
      invariant y == |rows| <= |picture|
      invariant forall i :: 0 <= i < y ==> Indexes(palette.known, rows[i], picture[i])
    {
      RowWithin(picture, y);
      var row := WriteRow(palette, picture[y]);
      rows := rows + [row];
      y := y + 1;
    }
  }
}
