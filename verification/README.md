# Verified core of the Guacamole server

A Dafny model of the parts of Apache Guacamole's server whose correctness is hardest to
see, with proofs of what they promise. Every module follows one component and keeps its
form: objects that are changed in place are classes, loops are loops with invariants,
protocols between threads are state machines over single statements, and each is proved
against a specification that does not mention how it works.

| module | component | main result |
|---|---|---|
| `Rects`, `Pixels`, `Surfaces`, `SurfaceRuns` | drawing surfaces mirrored to a remote layer | after any run and a flush the remote layer is the picture of a reference canvas |
| `Unicode`, `Wire`, `Grammar`, `Machines`, `Parsers`, `WireRuns` | the instruction format and its incremental parser | what is printed is what is parsed, however the stream is split, and exactly when |
| `Base64`, `Lines`, `Blobs`, `BlobRuns` | binary data as base64 blobs | data of any size arrives unchanged, end to end; what is lost on a failing socket, and when |
| `RwLock`, `PendingTimer`, `UserOrder`, `UserLists`, `UserSteps` | re-entrant lock, promotion timer, user lists | invariants over every interleaving; what calls return is true, and calls come to their end |
| `Palettes`, `Pools`, `Layers`, `Lists`, `ProcMaps` | open addressing, integer pools, hash map of processes | each refines a plain set or map; exactly when layer indices are unique |
| `Strings`, `SftpPath`, `Utf8`, `Iconv` | path normalization and text conversion | normalization is an idempotent stack fold; CRLF conversion round-trips |
| `Videos`, `CInt` | the timeline of encoded recordings | the video does not drift, exactly as long as no gap overflows an int |

`dafny verify dfyconfig.toml` checks all of it.

## How the model reads

* The remote layer is not stored by the server. It is the result of replaying the
  instructions sent so far. Of the compositing operator OVER only two laws are used: an
  opaque source wins, and over a cleared pixel the source is kept. The compositing
  function of the server itself is modelled as written: its components are not divided by
  255, and what it gives is stated component by component (`Pixels.BlendComposes`).
* `ShouldCombine` has the body of the source and no postcondition, so its callers are
  proved for any answer that it could give.
* The receiving socket chooses nondeterministically how many bytes arrive and when it
  fails; where a result needs a working one it says so through `reliable`. The write
  handler of a sending socket and the video encoder are scripts of outcomes, so that a
  result can say which call failed.
* Coordinates, lengths and counters are unbounded integers except where a width is the
  point: the packed lock word, the base64 accumulator, the hash, the pixels, the length
  of an element while it is read, and the arithmetic of the video timeline.
* Rectangles are values; functions that overwrite one return what they leave behind.
* The constants are those of the headers: 256 queue entries, lengths up to 8192, 128
  elements, a 32768-byte instruction buffer, a 768-byte ready buffer, 6048 bytes per
  blob, paths of 2048 bytes and 1024 components, 64 streams, 25 frames per second.

## What the proofs brought to light

* An upgrade from read to write lock is not atomic (`RwLock.UpgradeIsNotAtomic`): the
  lock is given up first, and another writer can run in between. So a list of users can
  change while a callback of its reader waits for the write lock
  (`UserSteps.UpgradingReaderSeesChange`).
* `guac_socket_flush_base64` never reports a failed write: `guac_socket_write` returns 1
  on error and only negative values are looked at. So `guac_protocol_send_blob` returns 0
  although data is missing, exactly if a failure hits the data and nothing else
  (`Blobs.BlobReportsExactlyWhen`, `Blobs.LosingScript`), and the receiver takes what
  follows for the lost text (`Blobs.LostTextIsAwaited`).
* A length that does not fit a C int can be accepted or refused depending on how its
  digits arrive (`WireRuns.WrappedIsAccepted`, `WireRuns.WrappedIsRefusedInParts`). The
  streams that are read in whatever way they arrive are exactly those that mean an
  instruction (`Machines.SplittableExactlyWhen`).
* A copy that is sent at once is composed by the receiver and copied by the server; a
  pixel stays in step exactly if both come to the same, which opaque sources ensure
  (`Surfaces.Surface.CopyWithin`, `SurfaceRuns.CopyTransparent`).
* Rectangles that merely touch count as intersecting (`Rects.IntersectsIsClosed`).
* The depth limit of path normalization can never be reached with the length limit in
  force (`SftpPath.LightIsShallow`, `SftpPath.NormalizePath`), although the header
  documents it as a way to fail.
* Layer indices can repeat: allocation adds one to the value of the pool and freeing does
  not subtract it. They stay unique for ever exactly if no layer is ever freed, and for the
  first 1024 allocations in any case (`Layers.UniqueForeverExactlyWhen`,
  `Layers.EarlyUnique`, `Layers.WitnessRepeats`).
* Only the even half of the process map's buckets is ever used (`ProcMaps.BucketOf`).
* The video timeline is computed in C ints. Two syncs 85,899,360 ms or more apart, just
  under a day, overflow them, and the timeline goes wrong (`Videos.AdvanceExactlyWhen`,
  `Videos.PauseOfOneDay`).
* A sync that fails in the middle leaves its frames in the video and the timeline where
  it was, so that they are written again (`Videos.FramesRepeated`).

## Model

| member | source | states |
|---|---|---|
| `SurfaceRuns.Run` | lfsCopy/guacamole-server/src/common/surface.c:1345-1629 | For every surface size and every sequence of draw, paint, set, in-surface transfer, in-surface copy of opaque pixels, clip, reset_clip and flush, ending in a flush, every pixel of the remote layer equals the pixel of a reference canvas that knows no dirty rectangle, queue or instruction, whatever should_combine answers on the way and whatever OVER does beyond its two laws |
| `SurfaceRuns.Serve` | lfsCopy/guacamole-server/src/common/surface.c:1345-1629 | The same for the calls as they are made: images put the way their format asks for, transfers by their sixteen codes |
| `SurfaceRuns.ImageMeans` | lfsCopy/guacamole-server/src/common/surface.c:1001-1037 | In the picture of a run a pixel under an image becomes what that should give: without alpha its color made opaque; with alpha the source where it is opaque or the destination transparent, the destination where the source is transparent, and a blend of each component otherwise |
| `SurfaceRuns.TransferMeans` | lfsCopy/guacamole-server/src/common/surface.c:729-803 | A pixel that a transfer reaches becomes what the truth table of its code says of the old source and destination pixels |
| `SurfaceRuns.SetMeans` | lfsCopy/guacamole-server/src/common/surface.c:832-888 | A pixel that is set gets the four components, each in its place |
| `SurfaceRuns.PaintMeans` | lfsCopy/guacamole-server/src/common/surface.c:1080-1117 | A pixel under a mask gets the three components, opaque, unless the mask is transparent there |
| `SurfaceRuns.Apply` | lfsCopy/guacamole-server/src/common/surface.c:1345-1629 | One operation keeps the mirror invariant and takes the buffer from one canvas to the next |
| `SurfaceRuns.ApplyDrawing` | lfsCopy/guacamole-server/src/common/surface.c:1345-1421 | Draw and paint follow the canvas |
| `SurfaceRuns.ApplyMove` | lfsCopy/guacamole-server/src/common/surface.c:1491-1554 | A transfer within the surface follows the canvas, whose pixels all change at once |
| `SurfaceRuns.ApplyCopy` | lfsCopy/guacamole-server/src/common/surface.c:1423-1489 | A copy within the surface follows the canvas and keeps the mirror invariant if the pixels it copies are opaque |
| `SurfaceRuns.OpaqueMoves` | lfsCopy/guacamole-server/src/common/surface.c:1457-1475 | Composing an opaque source pixel is copying it |
| `SurfaceRuns.CopyMeans` | lfsCopy/guacamole-server/src/common/surface.c:1423-1489 | A pixel that a copy reaches becomes the pixel it comes from |
| `SurfaceRuns.ClipMeans` | lfsCopy/guacamole-server/src/common/surface.c:1606-1629 | Clipping limits drawing to what both the area so far and the rectangle hold, and a reset lifts all limits but the bounds |
| `SurfaceRuns.OutsideStays` | lfsCopy/guacamole-server/src/common/surface.c:1345-1629 | Outside the clipping area no operation changes a pixel |
| `Surfaces.Surface.constructor` | lfsCopy/guacamole-server/src/common/surface.c:1226-1267 | A new surface is transparent, unclipped and in step with its remote layer |
| `Surfaces.Surface.MarkDirty` | lfsCopy/guacamole-server/src/common/surface.c:362-378 | The dirty rectangle grows to hold the given one and never loses a pixel |
| `Surfaces.Surface.FlushToQueue` | lfsCopy/guacamole-server/src/common/surface.c:669-685 | The dirty rectangle becomes the one new queue entry; earlier entries are untouched; no pending pixel is lost |
| `Surfaces.Surface.FlushDeferred` | lfsCopy/guacamole-server/src/common/surface.c:704-719 | A dirty rectangle becomes the last entry of the queue, or everything is sent if only one slot is left; afterwards there is room in the queue, so the append never writes past it, and what is out of step is still covered |
| `Surfaces.Surface.SortQueue` | lfsCopy/guacamole-server/src/common/surface.c:1841-1856 | The queue is sorted, a permutation of what it was, and covers the same pixels |
| `Surfaces.SortRects` | lfsCopy/guacamole-server/src/common/surface.c:1841-1856 | Sorting by the comparison of the source: sorted in that order and a permutation |
| `Surfaces.BeforeOrders` | lfsCopy/guacamole-server/src/common/surface.c:1841-1856 | The comparison orders all rectangles: by top, then left, then the wider, then the shorter first |
| `Surfaces.Surface.FlushSorted` | lfsCopy/guacamole-server/src/common/surface.c:1905-1970 | The loop over the sorted queue leaves every entry flushed and the surface clean with the mirror invariant kept |
| `Surfaces.InsertSorts` | lfsCopy/guacamole-server/src/common/surface.c:1841-1856 | Insertion keeps a queue in the order of the comparison |
| `Surfaces.Surface.Absorb` | lfsCopy/guacamole-server/src/common/surface.c:1918-1932 | One entry is clipped and perhaps combined; the first of a scan always is; every pending pixel of the surface stays pending |
| `Surfaces.Surface.GatherFrom` | lfsCopy/guacamole-server/src/common/surface.c:1911-1936 | The inner scan flushes at least entry i and keeps the mirror invariant |
| `Surfaces.Surface.FlushContents` | lfsCopy/guacamole-server/src/common/surface.c:1890-1976 | The loop that appends to the queue it scans ends, stays within the queue, and leaves it empty and the surface clean with every pixel in step |
| `Surfaces.Surface.IsOpaque` | lfsCopy/guacamole-server/src/common/surface.c:250-281 | True exactly if every pixel of the rectangle is opaque |
| `Surfaces.Surface.Snapshot` | lfsCopy/guacamole-server/src/common/surface.c:1643-1692 | The rows handed to the encoder are the pixels of the rectangle |
| `Surfaces.Surface.FlushToPng` | lfsCopy/guacamole-server/src/common/surface.c:1643-1692 | Exactly the pixels of the dirty rectangle become equal on the remote layer; all others keep their value |
| `Surfaces.Surface.SendDirty` | lfsCopy/guacamole-server/src/common/surface.c:1943-1965 | Sending the dirty rectangle as PNG, opaque or not, keeps the mirror invariant |
| `Surfaces.Surface.SetPixels` | lfsCopy/guacamole-server/src/common/surface.c:832-888 | Exactly the rectangle gets the color, and the reported rectangle holds every pixel that changed |
| `Surfaces.Surface.PutRow` | lfsCopy/guacamole-server/src/common/surface.c:1003-1048 | One row of a put, for any pixel function, with the bounding box of its changes |
| `Surfaces.Surface.Put` | lfsCopy/guacamole-server/src/common/surface.c:981-1063 | Every pixel of the rectangle becomes the pixel function of source and destination, nothing else changes, and the reported rectangle and source position hold every change |
| `Surfaces.Surface.FillMask` | lfsCopy/guacamole-server/src/common/surface.c:1080-1117 | Exactly the pixels under a mask that is not fully transparent get the color |
| `Surfaces.Surface.TransferPixel` | lfsCopy/guacamole-server/src/common/surface.c:729-803 | The destination becomes the function of both pixels, and the answer is whether it changed |
| `Surfaces.Surface.TransferRow` | lfsCopy/guacamole-server/src/common/surface.c:1169-1205 | One row, in the direction of the copy, reads no pixel that it has already overwritten |
| `Surfaces.Surface.TransferRows` | lfsCopy/guacamole-server/src/common/surface.c:1169-1210 | The rows in the direction of the copy give the transfer of all pixels at once, with the bounding box of the changes |
| `Surfaces.Surface.TransferPixels` | lfsCopy/guacamole-server/src/common/surface.c:1131-1224 | For every offset, size and function the overlapping copy equals applying the function to all pixels at once on the old contents; the reported rectangle holds every changed pixel in both directions |
| `Surfaces.Surface.StillMirrors` | lfsCopy/guacamole-server/src/common/surface.c:1345-1385 | If only pixels inside a rectangle changed, only those can be out of step without being pending |
| `Surfaces.Surface.Draw` | lfsCopy/guacamole-server/src/common/surface.c:1345-1385 | Exactly the clipped rectangle is composed with the image, and the mirror invariant is kept; each pixel that the image covers becomes what the source pixel over the old one should give |
| `Surfaces.Surface.Paint` | lfsCopy/guacamole-server/src/common/surface.c:1387-1421 | Exactly the clipped pixels under the mask get the color, and the mirror invariant is kept |
| `Surfaces.Surface.Set` | lfsCopy/guacamole-server/src/common/surface.c:1556-1604 | Exactly the clipped rectangle gets the color, deferred or sent at once, and the mirror invariant is kept |
| `Surfaces.Surface.SendFill` | lfsCopy/guacamole-server/src/common/surface.c:1593-1599 | A fill sent at once leaves no pixel out of step |
| `Surfaces.Surface.TransferWithin` | lfsCopy/guacamole-server/src/common/surface.c:1491-1554 | The clipped destination becomes the function of the old source and destination pixels, and the mirror invariant is kept |
| `Surfaces.Surface.TransferClipped` | lfsCopy/guacamole-server/src/common/surface.c:1530-1545 | The same once both rectangles are clipped, whether the transfer is deferred or sent at once |
| `Surfaces.Surface.SendMove` | lfsCopy/guacamole-server/src/common/surface.c:1532-1545 | After a transfer or copy instruction the remote layer is exactly one step ahead of the buffer |
| `Surfaces.Surface.CopyWithin` | lfsCopy/guacamole-server/src/common/surface.c:1423-1489 | The clipped destination gets the old source pixels; if the copy was deferred the mirror invariant is kept, and if it was sent at once a pixel is in step exactly if composing its source over it gives the source |
| `Surfaces.Surface.CopyClipped` | lfsCopy/guacamole-server/src/common/surface.c:1455-1482 | The same once both rectangles are clipped, with what the remote layer then shows |
| `Surfaces.Surface.Clip` | lfsCopy/guacamole-server/src/common/surface.c:1606-1623 | The clipping area becomes its common part with the given rectangle |
| `Surfaces.Surface.ResetClip` | lfsCopy/guacamole-server/src/common/surface.c:1625-1629 | Drawing is limited by the bounds alone again |
| `Surfaces.Surface.Flush` | lfsCopy/guacamole-server/src/common/surface.c:1978-1990 | Nothing stays pending and the remote layer equals the buffer |
| `Surfaces.Restrict` | lfsCopy/guacamole-server/src/common/surface.c:876-886 | The reported rectangle holds exactly the pixels inside the bounding box of the changes |
| `Surfaces.Moved` | lfsCopy/guacamole-server/src/common/surface.c:1503-1518 | After clipping both ends a destination pixel is written exactly if it is in the clipping area, in the copied rectangle, and its source is inside the surface |
| `Pixels.BitmapReplaces` | lfsCopy/guacamole-server/src/common/surface.c:1643-1692 | Image data drawn OVER, after a clear unless it is opaque, replaces exactly its rectangle |
| `Pixels.MoveShows` | lfsCopy/guacamole-server/src/common/surface.c:1535-1545 | A transfer or copy instruction changes exactly its rectangle, by a function of source and destination pixel |
| `SurfaceRuns.CopyTransparent` | lfsCopy/guacamole-server/src/common/surface.c:1457-1475 | A white pixel is flushed and the transparent one beside it copied over it: sent at once, the copy leaves the remote pixel white with nothing pending |
| `Pixels.TransparentIsNotCopied` | lfsCopy/guacamole-server/src/common/surface.c:1457-1475 | A pixel for which a copy sent at once goes wrong: a transparent source over an opaque destination |
| `Pixels.OpaqueKeeps` | lfsCopy/guacamole-server/src/common/surface.c:1643-1692 | Sending opaque pixels without alpha changes none of them |
| `Pixels.BlendIsOver` | lfsCopy/guacamole-server/src/common/surface.c:933-965 | The blending of the server itself obeys the two laws asked of the receiver |
| `Pixels.BlendComposes` | lfsCopy/guacamole-server/src/common/surface.c:933-965 | Blending gives the source where it is opaque or the destination transparent, the destination where the source is transparent, and else the saturated sum in each of the four components |
| `Pixels.ComposedOpaque` | lfsCopy/guacamole-server/src/common/surface.c:933-965 | What is put on an opaque pixel leaves it opaque |
| `Pixels.ArgbComponents` | lfsCopy/guacamole-server/src/common/surface.c:963-964 | The four components of a pixel are in their places |
| `Pixels.TransferIsTruthTable` | lfsCopy/guacamole-server/src/common/surface.c:729-803 | For each of the sixteen functions the four bits of its code in the protocol are its truth table, bit by bit of the color |
| `Rects.Extend` | lfsCopy/guacamole-server/src/common/rect.c:30-53 | The least rectangle that holds both |
| `Rects.Constrain` | lfsCopy/guacamole-server/src/common/rect.c:55-78 | Exactly the pixels that both rectangles hold, also for negative sizes |
| `Rects.ExpandAxis` | lfsCopy/guacamole-server/src/common/rect.c:100-168 | Along one axis the size becomes the next multiple of the cell, or the maximum if that is smaller; it grows evenly on both sides unless a border of the maximum stops it; the result stays inside the maximum, even if the original does not, and holds the original if that is inside |
| `Rects.ExpandToGrid` | lfsCopy/guacamole-server/src/common/rect.c:80-172 | The result stays inside the maximum even for a rectangle that sticks out of it, holds the rectangle if that is inside, and each side is a multiple of the cell unless it is the whole maximum; it fails exactly for cells below one |
| `Rects.Intersects` | lfsCopy/guacamole-server/src/common/rect.c:174-190 | Zero means that no pixel is shared; two means that the first lies inside the second |
| `Rects.IntersectsIsClosed` | lfsCopy/guacamole-server/src/common/rect.c:174-190 | For rectangles with pixels, a pixel is shared exactly if the answer is not zero and they do not merely touch |
| `Rects.CutStep` | lfsCopy/guacamole-server/src/common/rect.c:192-266 | One split partitions the rectangle, keeps the piece off the hole and leaves fewer sides out |
| `Rects.CutOrder` | lfsCopy/guacamole-server/src/common/rect.c:192-266 | A piece is all that sticks out above the hole, or else to the left, below, or to the right; nothing is cut off exactly if the hole is apart or covers the rectangle |
| `Rects.CutAllPartitions` | lfsCopy/guacamole-server/src/common/rect.c:192-266 | Repeating until zero takes at most four splits; pieces and remainder hold every pixel of the original once; no piece meets the hole; for an intersecting hole the remainder is the original under the hole |
| `Wire.ResumeBounds` | lfsCopy/guacamole-server/src/libguac/parser.c:59-165 | An instruction ends within the stream and adds to the elements already read |
| `Wire.PrefixDecides` | lfsCopy/guacamole-server/src/libguac/parser.c:59-165 | Of a stream that decodes, a prefix decodes to the same instruction if it holds all of it and is incomplete otherwise |
| `Wire.TooLongNeverDecodes` | lfsCopy/guacamole-server/src/libguac/parser.c:72-107 | In the meaning of a stream a length beyond the limit never leads to an instruction, whatever follows |
| `Wire.Decimal` | lfsCopy/guacamole-server/src/libguac/socket.c:220-229 | A number prints as one or more digits |
| `Wire.ReadDecimal` | lfsCopy/guacamole-server/src/libguac/parser.c:72-107 | The digits of a printed number read as the number |
| `Wire.ReadWhole` | lfsCopy/guacamole-server/src/libguac/parser.c:111-161 | Counting the characters of a whole string ends exactly behind it |
| `Wire.ReadBroken` | lfsCopy/guacamole-server/src/libguac/parser.c:111-161 | Counting the characters of a string that is not whole runs past its end, and the element is longer than the string |
| `Wire.PrintedReads` | lfsCopy/guacamole-server/src/libguac/protocol.c:74-129 | Anywhere inside a stream, printed elements read as those elements |
| `Wire.UnprintableDiffers` | lfsCopy/guacamole-server/src/libguac/protocol.c:74-129 | If some element is not printable, what is read back differs |
| `Wire.PrintDecodes` | lfsCopy/guacamole-server/src/libguac/protocol.c:74-129 | Printing then parsing returns the elements if and only if the character walk of each ends at its end and each is within the length limit, whatever follows |
| `Wire.PrintAllDecodes` | lfsCopy/guacamole-server/src/libguac/protocol.c:74-129 | The same for a whole stream of instructions |
| `Grammar.AcceptsExactly` | lfsCopy/guacamole-server/src/libguac/parser.c:59-165 | A stream means an instruction exactly if it begins with a sentence for it: digits (leading zeros allowed), a period, as many characters as the digits say and at most 8192, commas between the elements, and a semicolon |
| `Grammar.AcceptedIsSentence` | lfsCopy/guacamole-server/src/libguac/parser.c:59-165 | Whatever is accepted is such a sentence |
| `Grammar.SentenceIsAccepted` | lfsCopy/guacamole-server/src/libguac/parser.c:59-165 | Every such sentence is accepted, with its elements |
| `Grammar.ElementText` | lfsCopy/guacamole-server/src/libguac/socket.c:220-229 | An element is written as its length in decimal, a period and itself |
| `Grammar.TwoElementsPrinted` | lfsCopy/guacamole-server/src/libguac/protocol.c:74-129 | The bytes of an instruction: "2.ok,10.0123456789;" |
| `Grammar.VersionPrinted` | lfsCopy/guacamole-server/src/libguac/protocol.c:74-129 | The bytes of the protocol version: "4.args,13.VERSION_1_5_0;" |
| `Grammar.BlobPrinted` | lfsCopy/guacamole-server/src/libguac/protocol.c:248-269 | The bytes of a blob: "4.blob,1.1,4.+w==;" for the one byte 251 |
| `Unicode.CharSize` | lfsCopy/guacamole-server/src/libguac/unicode.c:26-37 | A character announces one to four bytes |
| `Unicode.MasksAreRanges` | lfsCopy/guacamole-server/src/libguac/unicode.c:26-37 | The masks of the source select the ranges used in the model |
| `Unicode.Strlen` | lfsCopy/guacamole-server/src/libguac/unicode.c:39-69 | The skipping loop counts the characters of the walk by announced sizes, cut-off last character included |
| `Machines.OutcomeBounds` | lfsCopy/guacamole-server/src/libguac/parser.c:59-165 | An instruction that the parser finds ends within the bytes that have arrived; where it is stuck instead, the bytes have ended, the next character is not whole, or no character is due any more |
| `Machines.PrefixGoesOn` | lfsCopy/guacamole-server/src/libguac/parser.c:167-268 | What is decided by the bytes that have arrived stays decided; where the parser is stuck it goes on from there |
| `Machines.StuckIsShort` | lfsCopy/guacamole-server/src/libguac/parser.c:184-246 | Where the parser is stuck, the instruction is longer than what has arrived |
| `Machines.MachineAgrees` | lfsCopy/guacamole-server/src/libguac/parser.c:72-107 | Where the stream means an instruction, the parser with its C int finds that one: no length on the way wraps around |
| `Machines.NeverRefused` | lfsCopy/guacamole-server/src/libguac/parser.c:100-104 | Of a stream that means an instruction no part is refused |
| `Machines.WrappedIsRefused` | lfsCopy/guacamole-server/src/libguac/parser.c:72-107 | An instruction that the parser finds and the stream does not mean has a part, ending inside a length, that is refused when it arrives alone |
| `Machines.SplittableExactlyWhen` | lfsCopy/guacamole-server/src/libguac/parser.c:72-107 | Of the streams in which the parser finds an instruction, those that it reads however they arrive are exactly those that mean one |
| `Machines.MachineNumberExactlyWhen` | lfsCopy/guacamole-server/src/libguac/parser.c:75-84 | Digits that arrive together are read as their number if and only if it fits a C int |
| `Machines.DecimalWraps` | lfsCopy/guacamole-server/src/libguac/parser.c:75-84 | A printed number that arrives at once is read modulo 2^32 |
| `Machines.RunDigits` | lfsCopy/guacamole-server/src/libguac/parser.c:75-84 | The digits of a length leave the number that they are read as |
| `Machines.WrappedOutcomes` | lfsCopy/guacamole-server/src/libguac/parser.c:72-107 | "4294967297.a;" means no instruction; arriving at once it is one with the element "a", and its first five bytes, arriving alone, are refused |
| `Parsers.Parser.AppendLength` | lfsCopy/guacamole-server/src/libguac/parser.c:72-109 | Digits and period take the parser the way of the stream read with a C int, also once a length wraps around; it fails only where that way is wrong or ends inside a length beyond the limit |
| `Parsers.Parser.ReadDigits` | lfsCopy/guacamole-server/src/libguac/parser.c:75-84 | The digits that have arrived, added in a C int, leave what comes of the stream unchanged, and from the first digit on their value is that of MachineNumber |
| `Parsers.Parser.ReadLength` | lfsCopy/guacamole-server/src/libguac/parser.c:72-107 | A length is refused only where the stream is wrong or has so far ended inside a length beyond the limit; otherwise the parser stands in the length, having used all bytes, or at the content |
| `Parsers.Parser.OpenElement` | lfsCopy/guacamole-server/src/libguac/parser.c:87-90 | The next element begins behind the period, and earlier ones stay readable |
| `Parsers.Parser.CloseElement` | lfsCopy/guacamole-server/src/libguac/parser.c:127-130 | The terminator of an element becomes a null byte; the element and all earlier ones are readable as strings; later bytes are untouched |
| `Parsers.Parser.Terminate` | lfsCopy/guacamole-server/src/libguac/parser.c:127-153 | Semicolon, comma or anything else completes, continues or fails exactly as the stream says |
| `Parsers.Parser.SkipCharacters` | lfsCopy/guacamole-server/src/libguac/parser.c:111-161 | Stops when no character is due or none is whole, with what comes of the stream unchanged |
| `Parsers.Parser.PassCharacter` | lfsCopy/guacamole-server/src/libguac/parser.c:113-159 | One whole character that is due is passed over with what comes of the stream unchanged |
| `Parsers.Parser.AppendContent` | lfsCopy/guacamole-server/src/libguac/parser.c:111-161 | Characters and terminators take the parser the way of the stream; no progress without failure means that it is stuck there |
| `Parsers.Parser.Append` | lfsCopy/guacamole-server/src/libguac/parser.c:59-165 | On every stream the parser goes the way of the stream read with a C int: completion finishes exactly the instruction found there; failure means that the way is wrong, is refused, or has too many elements; no progress without failure means that more bytes are needed |
| `Parsers.Parser.MoveToFront` | lfsCopy/guacamole-server/src/libguac/parser.c:192-205 | The bytes of the current instruction move to the front |
| `Parsers.Parser.MovePointers` | lfsCopy/guacamole-server/src/libguac/parser.c:207-209 | Every element pointer moves by the same offset |
| `Parsers.Parser.ShiftBack` | lfsCopy/guacamole-server/src/libguac/parser.c:192-211 | After the shift the parser stands at the same place of the same stream |
| `Parsers.Parser.Fill` | lfsCopy/guacamole-server/src/libguac/parser.c:227-246 | New bytes are added behind those in the buffer and nothing there changes |
| `Parsers.Parser.MakeRoom` | lfsCopy/guacamole-server/src/libguac/parser.c:189-220 | There is room unless the instruction fills the whole buffer, and the parser stands at the same place of the stream |
| `Parsers.Parser.Fetch` | lfsCopy/guacamole-server/src/libguac/parser.c:187-246 | With a working socket more bytes arrive unless the stream has ended or the instruction fills the whole buffer |
| `Parsers.Parser.Turn` | lfsCopy/guacamole-server/src/libguac/parser.c:179-246 | A turn of the loop keeps the parser on its way and makes progress; it asks for bytes only where it is stuck and not refused |
| `Parsers.Parser.ReadLoop` | lfsCopy/guacamole-server/src/libguac/parser.c:179-246 | The loop ends; it asks for bytes only where those that have arrived leave it stuck and not refused, and with a working socket gives up in want of bytes only on instructions larger than the buffer |
| `Parsers.Parser.FailureMeans` | lfsCopy/guacamole-server/src/libguac/parser.c:257-262 | The loop ends in failure on a stream with an instruction of fewer than 128 elements only if what has arrived ends inside a length beyond the limit |
| `Parsers.Parser.Read` | lfsCopy/guacamole-server/src/libguac/parser.c:167-268 | On every stream success returns the elements of the first instruction found with a C int and consumes exactly its bytes; a working socket always succeeds if that instruction fits the buffer, has fewer than 128 elements and no part of the stream is refused; it succeeds if the whole instruction has arrived, and fails if what has arrived is refused; failure returns -1 and saves no position |
| `WireRuns.Exchange` | lfsCopy/guacamole-server/src/libguac/parser.c:167-268 | Any list of sendable instructions is received as that list, however the socket splits it, also inside characters and lengths |
| `WireRuns.ReadOne` | lfsCopy/guacamole-server/src/libguac/parser.c:167-268 | The next instruction of a stream that begins with its printed form is returned and the rest is kept |
| `WireRuns.CString` | lfsCopy/guacamole-server/src/libguac/parser.c:127-130 | An element read up to its null terminator is the element |
| `WireRuns.WrappedIsAccepted` | lfsCopy/guacamole-server/src/libguac/parser.c:72-107 | The parser reads "4294967297.a;" as an instruction with the element "a" when all of it has arrived |
| `WireRuns.WrappedIsRefusedInParts` | lfsCopy/guacamole-server/src/libguac/parser.c:100-104 | The parser refuses the same bytes when the first five have arrived alone |
| `Base64.Digit` | lfsCopy/guacamole-server/src/libguac/socket.c:38-44 | Every six-bit value has a character whose value is that value and which is neither padding nor null |
| `Base64.DigitIsInAlphabet` | lfsCopy/guacamole-server/src/libguac/socket.c:38-44 | Every six-bit value has its character of the alphabet of RFC 4648 |
| `Base64.ValueIsPosition` | lfsCopy/guacamole-server/src/libguac/protocol.c:1318-1339 | The value of a character is its position in that alphabet, or zero if it has none |
| `Base64.EncodedText` | lfsCopy/guacamole-server/src/libguac/socket.c:266-313 | Character i of an encoding is that of the alphabet for bits 6i to 6i+5 of the data, and padding where the data has no more bits |
| `Base64.MasksAreDigits` | lfsCopy/guacamole-server/src/libguac/socket.c:266-313 | The masks and shifts of the source compute the digits used in the model |
| `Base64.EncodedLength` | lfsCopy/guacamole-server/src/libguac/protocol.c:248-269 | The announced length (count+2)/3*4 is the number of characters that encoding gives |
| `Base64.EncodeAppend` | lfsCopy/guacamole-server/src/libguac/socket.c:351-380 | Encoding in pieces is encoding at once if all but the last are multiples of three |
| `Base64.EncodedIsPlain` | lfsCopy/guacamole-server/src/libguac/socket.c:266-313 | Encoded text has one byte per character and no null byte |
| `Base64.DecodeQuad` | lfsCopy/guacamole-server/src/libguac/protocol.c:1342-1375 | A group of four characters decodes to the bytes it was made of |
| `Base64.DecodeEncode` | lfsCopy/guacamole-server/src/libguac/protocol.c:1342-1375 | Decoding undoes encoding, for any bytes |
| `Base64.PaddingEnds` | lfsCopy/guacamole-server/src/libguac/protocol.c:1352-1356 | Nothing behind padding is looked at |
| `Base64.DecodeNext` | lfsCopy/guacamole-server/src/libguac/protocol.c:1352-1370 | One turn of the decoding loop: what has been written and what is still to come stay the same together |
| `Base64.Accumulate` | lfsCopy/guacamole-server/src/libguac/protocol.c:1352-1370 | One step of the 32-bit accumulator emits the specified byte, whatever is shifted out at its top |
| `Base64.Absorb` | lfsCopy/guacamole-server/src/libguac/protocol.c:1352-1370 | The body of the decoding loop emits the byte completed and carries on the rest |
| `Base64.DecodeInPlace` | lfsCopy/guacamole-server/src/libguac/protocol.c:1342-1375 | The buffer then starts with the decoded bytes; output never passes unread input; nothing behind the output changes |
| `Lines.SentDelivers` | lfsCopy/guacamole-server/src/libguac/socket.c:98-119 | For every script of outcomes of the write handler: all data is written if and only if no outcome used is a failure, otherwise something is missing, and the return value says which |
| `Lines.DeliversExactlyWhen` | lfsCopy/guacamole-server/src/libguac/socket.c:98-119 | Between two points of a line a text is written in full exactly if no outcome used in between is a failure |
| `Lines.DeliversBoth` | lfsCopy/guacamole-server/src/libguac/socket.c:98-119 | What two writes in a row deliver |
| `Lines.SentAllDelivers` | lfsCopy/guacamole-server/src/libguac/protocol.c:74-129 | Pieces written up to the first failure: all are written, and success reported, exactly if no outcome used is a failure |
| `Blobs.Output.Write` | lfsCopy/guacamole-server/src/libguac/socket.c:98-119 | The line afterwards, and 0 or 1, are those of the script of outcomes |
| `Blobs.Output.FlushBase64` | lfsCopy/guacamole-server/src/libguac/socket.c:315-349 | The encoding of the ready buffer is sent as the script of outcomes lets it, the buffer is emptied, and 0 is returned whatever became of it |
| `Blobs.Output.EncodeReady` | lfsCopy/guacamole-server/src/libguac/socket.c:315-340 | The encoded buffer is never overrun and holds the encoding of the ready buffer |
| `Blobs.Output.WriteBase64` | lfsCopy/guacamole-server/src/libguac/socket.c:351-380 | What was sent and what waits are those of pushing all bytes through the ready buffer, under the script of outcomes |
| `Blobs.PushedAppend` | lfsCopy/guacamole-server/src/libguac/socket.c:351-380 | Pushing bytes in pieces is pushing them at once |
| `Blobs.Output.WriteElement` | lfsCopy/guacamole-server/src/libguac/protocol.c:74-81 | Length, period and content are sent up to the first failure, which is reported |
| `Blobs.Output.WriteArray` | lfsCopy/guacamole-server/src/libguac/protocol.c:114-129 | Every element is sent after a comma, up to the first failure, which is reported |
| `Blobs.Output.SendArgs` | lfsCopy/guacamole-server/src/libguac/protocol.c:153-179 | The pieces of the instruction are sent up to the first failure, which is reported |
| `Blobs.ArgsDeliver` | lfsCopy/guacamole-server/src/libguac/protocol.c:153-179 | The printed instruction is written, and success reported, exactly if no outcome used is a failure |
| `Blobs.Output.SendBlob` | lfsCopy/guacamole-server/src/libguac/protocol.c:248-269 | Head, data and semicolon are sent as the script of outcomes lets them; a failure in the data does not stop the call |
| `Blobs.Output.SendBlobs` | lfsCopy/guacamole-server/src/libguac/protocol.c:271-296 | Blob after blob is sent until one reports a failure |
| `Blobs.TextDelivers` | lfsCopy/guacamole-server/src/libguac/socket.c:315-380 | The encoded data is written in full exactly if no outcome used for it is a failure |
| `Blobs.BlobDelivers` | lfsCopy/guacamole-server/src/libguac/protocol.c:248-269 | The printed blob is written in full exactly if no outcome used by the call is a failure |
| `Blobs.BlobReportsExactlyWhen` | lfsCopy/guacamole-server/src/libguac/protocol.c:248-269 | The call returns 0 exactly if no outcome failed before the data or at the semicolon; then the printed blob was written exactly if none failed in the data |
| `Blobs.LossIsSilent` | lfsCopy/guacamole-server/src/libguac/socket.c:340-347 | Whenever exactly the data is hit by a failure, 0 is returned and the instruction is too short |
| `Blobs.BlobsDeliver` | lfsCopy/guacamole-server/src/libguac/protocol.c:271-296 | All data is written as printed blobs exactly if no outcome is a failure, and then 0 is returned |
| `Blobs.LosingScript` | lfsCopy/guacamole-server/src/libguac/protocol.c:248-269 | A script that loses the data: seven calls succeed and the eighth fails, 0 is returned, and the text is missing between the announced length and the semicolon |
| `Blobs.LostTextIsAwaited` | lfsCopy/guacamole-server/src/libguac/parser.c:111-161 | The receiver of such an instruction waits for more as long as what follows is shorter than the lost text: it takes the semicolon, and any plain bytes behind it, for that text |
| `Blobs.BlobIsPrinted` | lfsCopy/guacamole-server/src/libguac/protocol.c:248-269 | The length announced before encoding makes the streamed bytes a well-formed instruction |
| `Blobs.BlobArrives` | lfsCopy/guacamole-server/src/libguac/protocol.c:248-269 | For any bytes the parser returns the blob exactly if its encoded length is within the limit, and its argument decodes to the bytes |
| `Blobs.BlobsArrive` | lfsCopy/guacamole-server/src/libguac/protocol.c:271-296 | Data of any size passes the parser blob by blob, and the decoded blobs joined are the data |
| `Blobs.BlobCount` | lfsCopy/guacamole-server/src/libguac/protocol.c:271-300 | Data is sent in as few blobs of at most 6048 bytes as it takes |
| `BlobRuns.BlobSendable` | lfsCopy/guacamole-server/src/libguac/protocol.c:271-296 | A blob of the size that is sent is within every limit of the parser |
| `BlobRuns.CleanLineCarries` | lfsCopy/guacamole-server/src/libguac/protocol.c:271-296 | A line without failures carries the printed form of all blobs |
| `BlobRuns.ReceiveNext` | lfsCopy/guacamole-server/src/libguac/parser.c:167-268 | Each received blob extends the data by its next part |
| `BlobRuns.Transport` | lfsCopy/guacamole-server/src/libguac/protocol.c:271-296 | End to end: streamed encoder, sockets that split as they like on the way out and in, sliding parser and in-place decoder give back the data, whatever it is |
| `RwLock.MasksAreArithmetic` | lfsCopy/guacamole-server/src/libguac/rwlock.c:85-125 | Masks and shifts are the arithmetic of the model |
| `RwLock.PackUnpacks` | lfsCopy/guacamole-server/src/libguac/rwlock.c:122-147 | Packing loses nothing if and only if the count is within the limit that the overflow check enforces |
| `RwLock.BeginKeepsInv` | lfsCopy/guacamole-server/src/libguac/rwlock.c:149-276 | Entering any call keeps the invariant |
| `RwLock.LockMoveKeepsInv` | lfsCopy/guacamole-server/src/libguac/rwlock.c:149-276 | Every operation on the underlying lock keeps the invariant |
| `RwLock.MarkMoveKeepsInv` | lfsCopy/guacamole-server/src/libguac/rwlock.c:149-276 | Every write of a packed word keeps the invariant |
| `RwLock.RunKeepsInv` | lfsCopy/guacamole-server/src/libguac/rwlock.c:149-276 | In every state of every interleaving of any number of threads: the word is a valid flag and count, the flag is NO_LOCK exactly if the count is zero and WRITE exactly if an acquire_write has returned success since, the count is the nesting depth, and the underlying lock has one writer or some readers |
| `RwLock.HoldsWhatWasGiven` | lfsCopy/guacamole-server/src/libguac/rwlock.c:149-276 | Between calls a thread holds the write lock exactly if an acquire_write has returned success to it, at any depth, and it has not released the last of its acquisitions since; otherwise it reads exactly if it has acquired at all |
| `RwLock.AcquiredWrites` | lfsCopy/guacamole-server/src/libguac/rwlock.c:149-194 | Whenever an acquire_write returns success, at whatever depth and whatever was held before, its caller is the sole writer |
| `RwLock.AcquiredReads` | lfsCopy/guacamole-server/src/libguac/rwlock.c:196-236 | Whenever an acquire_read returns success, its caller is a reader if its depth was zero, and otherwise holds what it held |
| `RwLock.WriterUntilLast` | lfsCopy/guacamole-server/src/libguac/rwlock.c:149-276 | A thread that has been given the write lock is the writer as long as its depth stays positive, until it is past its last unlock |
| `RwLock.LoggerReturns` | lfsCopy/guacamole-server/src/libguac/rwlock.c:149-276 | What a call returned is recorded for the thread and the call that were made |
| `RwLock.DisagreeExactlyWhen` | lfsCopy/guacamole-server/src/libguac/rwlock.c:149-276 | Word and lock disagree exactly in the upgrade window and between an operation on the lock and the note of it |
| `RwLock.WriterIsAlone` | lfsCopy/guacamole-server/src/libguac/rwlock.c:149-194 | A thread flagged WRITE outside its final release is the sole holder |
| `RwLock.HeldWhileNested` | lfsCopy/guacamole-server/src/libguac/rwlock.c:149-276 | The depth never exceeds its limit, and between calls the lock is held exactly while the depth is positive |
| `RwLock.UnlocksOnlyLast` | lfsCopy/guacamole-server/src/libguac/rwlock.c:238-276 | A release that unlocks is the last of the nested ones, by a thread that holds the lock |
| `RwLock.OthersDoNotUnlock` | lfsCopy/guacamole-server/src/libguac/rwlock.c:149-276 | Nobody loses the lock through a step of another thread |
| `RwLock.RefusedOnlyWhen` | lfsCopy/guacamole-server/src/libguac/rwlock.c:139-276 | A call is refused exactly at the limit, or for a release at depth zero |
| `RwLock.NoDeadlock` | lfsCopy/guacamole-server/src/libguac/rwlock.c:149-276 | If no thread inside a call can move, a thread outside any call holds the lock |
| `RwLock.NestedUnderWriter` | lfsCopy/guacamole-server/src/libguac/rwlock.c:149-194 | Under a writer, another thread is nested only in its upgrade window or past its last unlock |
| `RwLock.UpgradeIsNotAtomic` | lfsCopy/guacamole-server/src/libguac/rwlock.c:165-183 | A reachable state in which another thread holds the write lock while one is in the middle of its upgrade |
| `UserLists.Client.AddPending` | lfsCopy/guacamole-server/src/libguac/client.c:447-467 | The user becomes the first pending one; both lists stay well formed and apart, and the count is the number of users on both |
| `UserLists.Client.LastPending` | lfsCopy/guacamole-server/src/libguac/client.c:215-225 | The loop finds the last pending user |
| `UserLists.Client.Promote` | lfsCopy/guacamole-server/src/libguac/client.c:186-245 | All pending users move, in order, to the front of the full list, or, when the join handler fails, nothing changes |
| `UserLists.Client.Rehead` | lfsCopy/guacamole-server/src/libguac/client.c:578-585 | Only the list that the removed user headed gets a new head |
| `UserLists.Detach` | lfsCopy/guacamole-server/src/libguac/client.c:578-589 | The neighbours of the removed user are joined into a well-formed list |
| `UserLists.Client.Remove` | lfsCopy/guacamole-server/src/libguac/client.c:573-597 | Exactly that user leaves the list it is on; both lists stay well formed and the count is right |
| `UserLists.Client.Unlist` | lfsCopy/guacamole-server/src/libguac/client.c:573-597 | The same, by the position of the user |
| `UserSteps.DataPlaced` | lfsCopy/guacamole-server/src/libguac/client.c:208-245 | Every statement that changes a list or the count keeps every connected user in exactly one place, once |
| `UserSteps.StepKeepsInv` | lfsCopy/guacamole-server/src/libguac/client.c:166-245 | Every statement of add, promote, remove and of the readers keeps the invariant |
| `UserSteps.RunKeepsInv` | lfsCopy/guacamole-server/src/libguac/client.c:447-467 | The invariant holds in every state of every interleaving of any number of threads |
| `UserSteps.EveryUserOnOneList` | lfsCopy/guacamole-server/src/libguac/client.c:573-597 | Whenever no thread holds the pending-users write lock, every connected user is on exactly one of the two lists, once, and connected_users is their number |
| `UserSteps.MissingOnlyWhileMoving` | lfsCopy/guacamole-server/src/libguac/client.c:227-245 | A connected user is on neither list only while it is being promoted by the holder of that lock |
| `UserSteps.ListsFollowCalls` | lfsCopy/guacamole-server/src/libguac/client.c:166-245 | Whenever no thread holds the pending-users write lock, both lists, in order, and the count are exactly what the calls that have returned make of them one after the other, in every interleaving |
| `UserSteps.RunKeepsOrder` | lfsCopy/guacamole-server/src/libguac/client.c:447-467 | In every state the holder of that lock has carried out exactly the part of its call that its statement says |
| `UserSteps.CallGoesOn` | lfsCopy/guacamole-server/src/libguac/client.c:573-597 | What a call returns as is what it was made as |
| `UserSteps.PromoteEnds` | lfsCopy/guacamole-server/src/libguac/client.c:186-245 | If any users wait, a promotion that finds the locks free can come to its end, and then none wait |
| `UserSteps.NoDeadlock` | lfsCopy/guacamole-server/src/libguac/client.c:186-245 | The two locks never deadlock: as long as some thread is inside a call, some thread can go on |
| `UserSteps.ReadersSeeNoChange` | lfsCopy/guacamole-server/src/libguac/client.c:611-644 | Nobody changes a list under a thread that reads it, also after an upgrade of its lock; only while it waits for the upgrade they may |
| `UserSteps.UpgradingReaderSeesChange` | lfsCopy/guacamole-server/src/libguac/rwlock.c:174-190 | A run in which a callback of a reader asks for the write lock and a user is added before it gets it |
| `PendingTimer.StepKeepsInv` | lfsCopy/guacamole-server/src/libguac/client.c:166-184 | Every statement of the handler and of the start function keeps the invariant |
| `PendingTimer.SpawnKeepsInv` | lfsCopy/guacamole-server/src/libguac/client.c:482-528 | A timer firing or a new call keeps the invariant |
| `PendingTimer.RunKeepsInv` | lfsCopy/guacamole-server/src/libguac/client.c:166-184 | The invariant holds in every state of every interleaving |
| `PendingTimer.NeverOverlaps` | lfsCopy/guacamole-server/src/libguac/client.c:166-184 | At most one handler instance is past the already-running check |
| `PendingTimer.ActiveExactlyWhenTriggered` | lfsCopy/guacamole-server/src/libguac/client.c:241-250 | An instance is past the check exactly while the state is TRIGGERED |
| `PendingTimer.GivesWayOnlyToAnother` | lfsCopy/guacamole-server/src/libguac/client.c:173-184 | An instance that gives way does so to another that is active at that moment, and starting the timer never disturbs one |
| `PendingTimer.StartedExactlyWhen` | lfsCopy/guacamole-server/src/libguac/client.c:469-528 | A call that has returned success leaves the timer armed and registered, for good; a call fails exactly if the timer could not be created or started for it |
| `PendingTimer.PromotedExactlyWhen` | lfsCopy/guacamole-server/src/libguac/client.c:166-250 | An instance that has ended has promoted the pending users exactly if it did not give way |
| `PendingTimer.StepsEnd` | lfsCopy/guacamole-server/src/libguac/client.c:166-250 | Every statement brings its thread closer to its end |
| `PendingTimer.NoDeadlock` | lfsCopy/guacamole-server/src/libguac/client.c:166-250 | Some thread can always move, until all have ended |
| `PendingTimer.AllEnded` | lfsCopy/guacamole-server/src/libguac/client.c:247-250 | When all have ended the mutex is free, and the timer is registered exactly if it is armed |
| `PendingTimer.TimerStarts` | lfsCopy/guacamole-server/src/libguac/client.c:482-528 | A run in which the first call starts the timer |
| `PendingTimer.InstanceWorks` | lfsCopy/guacamole-server/src/libguac/client.c:166-184 | Once the timer is registered, an instance that it spawns comes to promote the pending users |
| `PendingTimer.InstancePromotes` | lfsCopy/guacamole-server/src/libguac/client.c:241-250 | An instance at work can go on to its end, where the timer is registered for the next one |
| `Palettes.ChannelsJoin` | lfsCopy/guacamole-server/src/libguac/palette.c:71-75 | The three channels of a color give the color back |
| `Palettes.ChannelsShow` | lfsCopy/guacamole-server/src/libguac/palette.c:48-77 | The channels given to libpng are the three lower bytes of the pixel, red above green above blue |
| `Palettes.SameColorExactlyWhen` | lfsCopy/guacamole-server/src/libguac/palette.c:48 | Pixels count as one color exactly if these three bytes agree |
| `Palettes.SomeLeftOut` | lfsCopy/guacamole-server/src/libguac/palette.c:55-92 | Fewer taken slots than slots leave one free |
| `Palettes.Palette.FreeSlot` | lfsCopy/guacamole-server/src/libguac/palette.c:55-92 | A free slot exists, so that every search ends |
| `Palettes.Palette.NotStored` | lfsCopy/guacamole-server/src/libguac/palette.c:112-127 | Reaching a free slot means that the color is not stored |
| `Palettes.Palette.Advance` | lfsCopy/guacamole-server/src/libguac/palette.c:90 | Moving on, with wrap-around, comes closer to a free slot |
| `Palettes.Palette.Probe` | lfsCopy/guacamole-server/src/libguac/palette.c:104-129 | The search ends at the slot of the color, or at a free slot if the color is not stored |
| `Palettes.Palette.Find` | lfsCopy/guacamole-server/src/libguac/palette.c:104-129 | The index of a stored color, and -1 exactly for the others |
| `Palettes.Palette.Store` | lfsCopy/guacamole-server/src/libguac/palette.c:77-79 | Storing in the free slot found keeps every color reachable |
| `Palettes.Palette.Add` | lfsCopy/guacamole-server/src/libguac/palette.c:55-92 | Refuses exactly a new color at capacity; otherwise the color is stored once |
| `Palettes.AddRow` | lfsCopy/guacamole-server/src/libguac/palette.c:46-93 | The colors of the row are added, or the picture has more than 256 |
| `Palettes.Build` | lfsCopy/guacamole-server/src/libguac/palette.c:32-102 | A palette exists if and only if the picture has at most 256 distinct 24-bit colors, and then holds exactly those |
| `Palettes.BitsFor` | lfsCopy/guacamole-server/src/libguac/encode-png.c:302-306 | The least of the depths 1, 2, 4 and 8 that can index the palette |
| `Palettes.WriteRow` | lfsCopy/guacamole-server/src/libguac/encode-png.c:347-365 | Every pixel of the row gets the index of its color |
| `Palettes.WritePng` | lfsCopy/guacamole-server/src/libguac/encode-png.c:269-378 | The image is indexed if and only if its format is RGB24 and it has at most 256 colors; then every index is below the palette size, which fits the bit depth, and shows the color of its pixel; no smaller depth would do |
| `Pools.TakeKeeps` | lfsCopy/guacamole-server/src/libguac/pool.c:72-108 | The value taken is not outstanding, and outstanding and free values still partition those below next_value |
| `Pools.GiveKeeps` | lfsCopy/guacamole-server/src/libguac/pool.c:110-135 | Returning an outstanding value keeps the partition |
| `Pools.RunKeepsInv` | lfsCopy/guacamole-server/src/libguac/pool.c:72-135 | In every run outstanding and free values partition [0, next_value), and next_value is at most the larger of min_size and the peak |
| `Pools.PeakIsReached` | lfsCopy/guacamole-server/src/libguac/pool.c:72-135 | The peak is the largest number of values ever outstanding at once |
| `Pools.FirstBackFirstOut` | lfsCopy/guacamole-server/src/libguac/pool.c:72-135 | Once the minimum is reached, values are handed out again in the order in which they were returned |
| `Pools.NewInOrder` | lfsCopy/guacamole-server/src/libguac/pool.c:72-108 | Below the minimum, and whenever none wait, new values are handed out in order |
| `Pools.Pool.NextInt` | lfsCopy/guacamole-server/src/libguac/pool.c:72-108 | The linked list and the counters follow the abstract pool, whatever was returned to it; if only outstanding values were, active counts these and the value is not among them |
| `Pools.Pool.Pop` | lfsCopy/guacamole-server/src/libguac/pool.c:88-103 | The first node leaves the list, the last one included |
| `Pools.Pool.FreeInt` | lfsCopy/guacamole-server/src/libguac/pool.c:110-135 | The value is appended to the free list; if it was outstanding, active still counts the outstanding values |
| `Pools.Client.AllocBuffer` | lfsCopy/guacamole-server/src/libguac/client.c:95-103 | A new buffer gets the negative index for the value of the pool, minus one for the first, which no live buffer has |
| `Pools.Client.FreeBuffer` | lfsCopy/guacamole-server/src/libguac/client.c:105-113 | Exactly that index stops being live |
| `Pools.Client.TakeSlot` | lfsCopy/guacamole-server/src/libguac/client.c:125-147 | The slot taken lies inside the stream array and is not in use |
| `Pools.Client.AllocStream` | lfsCopy/guacamole-server/src/libguac/client.c:125-147 | Refused exactly if all 64 streams are open; otherwise a closed slot inside the array opens with its odd index and no other changes |
| `Pools.Client.FreeStream` | lfsCopy/guacamole-server/src/libguac/client.c:149-157 | Exactly that slot closes |
| `Layers.RunBalanced` | lfsCopy/guacamole-server/src/libguac/client.c:85-123 | In every run the layers with an index, in use or freed since, and the copies of its value in the pool are as many as were handed out for the first time or given back |
| `Layers.EarlyUnique` | lfsCopy/guacamole-server/src/libguac/client.c:85-123 | The first min_size allocations get unique indices, whatever is freed |
| `Layers.NextRepeatsExactlyWhen` | lfsCopy/guacamole-server/src/libguac/client.c:85-93 | The next layer repeats an index if and only if the value the pool is about to hand out, plus one, is in use |
| `Layers.RunUniqueExactlyWhen` | lfsCopy/guacamole-server/src/libguac/client.c:85-123 | A run has unique indices throughout if and only if no allocation of it meets an index in use |
| `Layers.FreedRepeats` | lfsCopy/guacamole-server/src/libguac/client.c:115-123 | Once a layer has been freed, allocations alone come to repeat an index |
| `Layers.UniqueForeverExactlyWhen` | lfsCopy/guacamole-server/src/libguac/client.c:85-123 | In whatever way a run has come to a state, the allocations to come get unique indices for ever if and only if no layer has ever been freed |
| `Layers.FreedExactlyWhen` | lfsCopy/guacamole-server/src/libguac/client.c:115-123 | No layer has been freed exactly if every change so far was an allocation |
| `Layers.WitnessRepeats` | lfsCopy/guacamole-server/src/libguac/client.c:85-123 | Runs that show it, for every index freed once the pool has reached its minimum: the next layer repeats an index, or, if the last was freed, the one after it |
| `Layers.Client.AllocLayer` | lfsCopy/guacamole-server/src/libguac/client.c:85-93 | The layer gets the next index of the abstract run |
| `Layers.Client.FreeLayer` | lfsCopy/guacamole-server/src/libguac/client.c:115-123 | The index goes back to the pool unshifted |
| `Lists.List.Add` | lfsCopy/guacamole-server/src/common/list.c:61-79 | The new element is the head, and every element knows the pointer that points at it |
| `Lists.List.Unhook` | lfsCopy/guacamole-server/src/common/list.c:81-92 | The neighbours of an element are joined through its back pointer alone |
| `Lists.List.Remove` | lfsCopy/guacamole-server/src/common/list.c:81-92 | Exactly that element leaves, through its back pointer alone |
| `ProcMaps.Wraps` | lfsCopy/guacamole-server/src/guacd/proc-map.c:58-69 | A hash step in 32-bit arithmetic is the step itself modulo 2^32 |
| `ProcMaps.ClientHash` | lfsCopy/guacamole-server/src/guacd/proc-map.c:58-69 | The loop computes the string as a number to the base 65599 modulo 2^32 |
| `ProcMaps.BucketOf` | lfsCopy/guacamole-server/src/guacd/proc-map.c:86-92 | The bucket is twice the hash modulo 65536, always even, as the unparenthesised macro makes it |
| `ProcMaps.ShortHashes` | lfsCopy/guacamole-server/src/guacd/proc-map.c:58-69 | The hash of strings of up to two characters |
| `ProcMaps.ProcMap.constructor` | lfsCopy/guacamole-server/src/guacd/proc-map.c:131-149 | A new map is empty |
| `ProcMaps.ProcMap.Find` | lfsCopy/guacamole-server/src/guacd/proc-map.c:111-129 | The element with the ID, or null if the bucket has none |
| `ProcMaps.ProcMap.Locate` | lfsCopy/guacamole-server/src/guacd/proc-map.c:151-240 | The search finds an element exactly if the ID is mapped, and then its own |
| `ProcMaps.ProcMap.Retrieve` | lfsCopy/guacamole-server/src/guacd/proc-map.c:184-206 | The process of the abstract map, or null |
| `ProcMaps.ProcMap.Add` | lfsCopy/guacamole-server/src/guacd/proc-map.c:151-182 | Succeeds exactly if the ID is not mapped, and then adds that one mapping |
| `ProcMaps.ProcMap.Install` | lfsCopy/guacamole-server/src/guacd/proc-map.c:160-176 | Bucket and list of processes stay in step: each entry points at its own list element |
| `ProcMaps.ProcMap.Remove` | lfsCopy/guacamole-server/src/guacd/proc-map.c:208-240 | Exactly that mapping goes, and its process is returned, or null |
| `ProcMaps.ProcMap.Uninstall` | lfsCopy/guacamole-server/src/guacd/proc-map.c:224-237 | Bucket and list of processes lose the same process |
| `ProcMaps.ProcMap.Foreach` | lfsCopy/guacamole-server/src/guacd/proc-map.c:242-256 | Every mapped process is visited exactly once and nothing else is |
| `Strings.Strlcpy` | lfsCopy/guacamole-server/src/libguac/string.c:47-73 | As much as fits is copied and terminated, nothing outside is touched, and the full length is returned |
| `Strings.Strnlen` | lfsCopy/guacamole-server/src/libguac/string.c:75-84 | The distance to the terminator, at most n |
| `Strings.Strlcat` | lfsCopy/guacamole-server/src/libguac/string.c:75-84 | The string is copied behind the one in the buffer |
| `Strings.Strljoin` | lfsCopy/guacamole-server/src/libguac/string.c:139-161 | The buffer holds as much of the joined elements as fits, and their full length is returned |
| `SftpPath.SplitParts` | lfsCopy/guacamole-server/src/common-ssh/sftp.c:60-91 | Components contain no separator |
| `SftpPath.ResolvedNames` | lfsCopy/guacamole-server/src/common-ssh/sftp.c:60-91 | No empty, ".", or ".." component is left, and no separator of either kind |
| `SftpPath.NormalLength` | lfsCopy/guacamole-server/src/common-ssh/sftp.c:93-99 | A normalized path is no longer than the path, so it is never cut off |
| `SftpPath.LightIsShallow` | lfsCopy/guacamole-server/src/common-ssh/sftp.c:79-81 | A path short enough never exceeds the depth limit |
| `SftpPath.SplitJoin` | lfsCopy/guacamole-server/src/common-ssh/sftp.c:60-99 | Splitting undoes joining |
| `SftpPath.NormalAgain` | lfsCopy/guacamole-server/src/common-ssh/sftp.c:37-103 | Normalization is idempotent |
| `SftpPath.LeavingCancels` | lfsCopy/guacamole-server/src/common-ssh/sftp.c:69-73 | A directory that is left again through ".." leaves no trace in the path that is written, wherever it stands and with either separator |
| `SftpPath.RootHasNoParent` | lfsCopy/guacamole-server/src/common-ssh/sftp.c:70-73 | At the root ".." does nothing |
| `SftpPath.StayingCancels` | lfsCopy/guacamole-server/src/common-ssh/sftp.c:75-77 | "." and repeated separators leave no trace |
| `SftpPath.NamesStay` | lfsCopy/guacamole-server/src/common-ssh/sftp.c:75-99 | A path that is made of names only stays as it is |
| `SftpPath.Act` | lfsCopy/guacamole-server/src/common-ssh/sftp.c:69-85 | A component pops, pushes or is ignored as the stack fold says, and is refused exactly at the depth limit |
| `SftpPath.Close` | lfsCopy/guacamole-server/src/common-ssh/sftp.c:62-88 | Terminating a component in the scratch buffer keeps every component on the stack readable |
| `SftpPath.Scan` | lfsCopy/guacamole-server/src/common-ssh/sftp.c:58-91 | The scan of the scratch buffer computes the stack fold over the components |
| `SftpPath.Normalize` | lfsCopy/guacamole-server/src/common-ssh/sftp.c:37-103 | For any limits: succeeds exactly for absolute paths that are short and shallow enough, with the joined stack fold as its result, never cut off |
| `SftpPath.NormalizePath` | lfsCopy/guacamole-server/src/common-ssh/sftp.c:37-103 | With the limits of the source: succeeds exactly for paths below 2048 bytes that begin with a slash or a backslash, and writes names only, none of them empty, "." or ".." |
| `SftpPath.AppendPath` | lfsCopy/guacamole-server/src/common-ssh/sftp.c:255-285 | Joins with one slash, exactly if the result fits |
| `SftpPath.JoinedByOneSlash` | lfsCopy/guacamole-server/src/common-ssh/sftp.c:255-285 | Exactly one slash stands between the two paths: one that the first ends with, or a new one; of the second the leading ones are dropped |
| `SftpPath.TranslateName` | lfsCopy/guacamole-server/src/common-ssh/sftp.c:708-721 | Succeeds exactly if the name is absolute, short enough, and the result fits; the result is the normalized name below the root |
| `SftpPath.TranslatedParts` | lfsCopy/guacamole-server/src/common-ssh/sftp.c:708-721 | The components of the result are those of the root followed by the normalized ones, none of which is "..": the path never leaves the root |
| `Utf8.ShiftBounds` | lfsCopy/guacamole-server/src/libguac/unicode.c:80-99 | What is left for the first byte fits beside its mask |
| `Utf8.GatherTail` | lfsCopy/guacamole-server/src/libguac/unicode.c:114-117 | Collecting the trailing bytes gives back the code point |
| `Utf8.MasksAreSums` | lfsCopy/guacamole-server/src/libguac/unicode.c:112-120 | The masks of the source are added to the bits beside them |
| `Utf8.DecodeEncode` | lfsCopy/guacamole-server/src/libguac/unicode.c:71-182 | Reading undoes writing for every code point up to 0x1FFFFF, whatever follows |
| `Utf8.EncodedForms` | lfsCopy/guacamole-server/src/libguac/unicode.c:71-123 | The one to four bytes of a code point are those of RFC 3629 |
| `Utf8.OddBytes` | lfsCopy/guacamole-server/src/libguac/unicode.c:125-182 | What is not a first byte reads as one replacement character; nothing is read exactly if the character is not whole |
| `Utf8.Write` | lfsCopy/guacamole-server/src/libguac/unicode.c:71-123 | The bytes of the code point are written if they fit, and nothing otherwise; a code point that is too large becomes a question mark |
| `Utf8.WriteTail` | lfsCopy/guacamole-server/src/libguac/unicode.c:111-118 | The loop from the last byte to the first writes the trailing bytes in order |
| `Utf8.Read` | lfsCopy/guacamole-server/src/libguac/unicode.c:125-182 | The code point and size at the front, or nothing if the input breaks off |
| `Iconv.ReadNormalized` | lfsCopy/guacamole-server/src/common/iconv.c:160-187 | One character, with a CRLF pair taken for one newline; only that character, and the one behind a CR, need be whole |
| `Iconv.WriteWith` | lfsCopy/guacamole-server/src/common/iconv.c:274-289 | A newline becomes CRLF, cut off where room ends; anything else is written as it is |
| `Iconv.Convert` | lfsCopy/guacamole-server/src/common/iconv.c:64-92 | The loop writes exactly what its writer makes of what its reader reads, as far as there is room, and reports whether a terminator was reached; text may also end without one |
| `Iconv.NeverCompleted` | lfsCopy/guacamole-server/src/common/iconv.c:64-92 | Without a null character the conversion never reports that it is complete |
| `Iconv.NormalTakes` | lfsCopy/guacamole-server/src/common/iconv.c:160-187 | The normalized reader takes the next code point of the text with every CRLF pair replaced by a newline |
| `Iconv.NewlinesRead` | lfsCopy/guacamole-server/src/common/iconv.c:160-187 | Bytes 13 and 10 read as one newline, a lone 13 does not |
| `Iconv.NewlineWritten` | lfsCopy/guacamole-server/src/common/iconv.c:274-289 | A newline is byte 10, and with CRLF bytes 13 and 10, or 13 alone where only one byte is left |
| `Iconv.OtherWritten` | lfsCopy/guacamole-server/src/common/iconv.c:64-92 | Any other character is written in full or left out, and a shorter one behind it may still be written |
| `Iconv.NormalizeExpand` | lfsCopy/guacamole-server/src/common/iconv.c:160-187 | Normalizing undoes CRLF expansion on every sequence, also with lone CR and LF |
| `Iconv.BytesRead` | lfsCopy/guacamole-server/src/common/iconv.c:94-101 | The bytes of a message read as the message |
| `Iconv.EnoughRoom` | lfsCopy/guacamole-server/src/common/iconv.c:64-92 | With enough room nothing is left out |
| `Iconv.WritersConvert` | lfsCopy/guacamole-server/src/common/iconv.c:64-92 | Both conversions, described on any message and any sufficient room |
| `Iconv.ThereAndBack` | lfsCopy/guacamole-server/src/common/iconv.c:64-92 | Converting with the CRLF writer and back with the normalized reader returns the same bytes |
| `Videos.AdvanceExactlyWhen` | lfsCopy/guacamole-server/src/guacenc/video.c:256-267 | In the 32-bit arithmetic of the source the timeline is brought to the frame of a timestamp if and only if the gap is below 85,899,360 ms |
| `Videos.PauseOfOneDay` | lfsCopy/guacamole-server/src/guacenc/video.c:256-267 | After a gap of one day elapsed * 1000 leaves the range of an int, and the timeline goes back |
| `Videos.Video.FlushFrames` | lfsCopy/guacamole-server/src/guacenc/video.c:269-276 | The counter, an int, is decremented until it is zero or the encoder fails |
| `Videos.Video.AdvanceTimeline` | lfsCopy/guacamole-server/src/guacenc/video.c:249-284 | The timeline, frame counter and result are those of the advance as a function of the encoder outcomes, in 32-bit arithmetic |
| `Videos.AdvancedExactlyWhen` | lfsCopy/guacamole-server/src/guacenc/video.c:249-284 | A call that succeeds leaves the timeline at the frame of the timestamp if and only if the gap is below the limit; then the frames written are floor((ts - t0)/40) and the stray ones |
| `Videos.FailedStaysOnTrack` | lfsCopy/guacamole-server/src/guacenc/video.c:269-276 | A call that fails leaves the timeline where it is, and every frame it has written is accounted for |
| `Videos.FramesRepeated` | lfsCopy/guacamole-server/src/guacenc/video.c:269-276 | A failure in the middle, after which three frames stand for two |
| `Videos.Video.FlushFrame` | lfsCopy/guacamole-server/src/guacenc/video.c:212-247 | The frame counter advances exactly if the encoder succeeds |
| `Videos.Display.Sync` | lfsCopy/guacamole-server/src/guacenc/display-sync.c:32-59 | A decreasing sync is rejected and changes nothing; any other advances the timeline exactly unless combining the layers fails |
| `Videos.InStepNext` | lfsCopy/guacamole-server/src/guacenc/display-sync.c:32-59 | One more sync keeps a recording in step if and only if its gap is below the limit |
| `Videos.ShortGapsAreSteady` | lfsCopy/guacamole-server/src/guacenc/video.c:256-267 | Syncs that are never more than 85,899,320 ms apart are steady |
| `Videos.PauseIsNotSteady` | lfsCopy/guacamole-server/src/guacenc/video.c:256-267 | A recording with a pause of one day is not |
| `Videos.Play` | lfsCopy/guacamole-server/src/guacenc/display-sync.c:32-59 | Of any series of syncs without failures, in order or not, the timeline is at the frame of every sync if and only if the syncs are steady; then the video has one frame for every 40 ms between the first positive timestamp and the latest |
| `Videos.OneWayFits` | lfsCopy/guacamole-server/src/guacenc/video.c:414-434 | The assertion on the scaled height never fails |
| `Videos.MarginsMatch` | lfsCopy/guacamole-server/src/guacenc/video.c:414-438 | With its margins the image has the proportions of the destination to within two pixels of the image and one of the destination |

## Left out

- JPEG and WebP flushes, and the choice between encodings: opacity is tested before the rectangle is grown to the grid, and WebP is drawn OVER without clearing, so that the remote layer need not equal the buffer.
- Resizing a surface, which copies old pixels as opaque; duplicating, moving, stacking and the layer properties sent with a flush.
- Copies and transfers between two different surfaces.
- The stride padding of the pixel buffer.
- Surfaces.Surface.ShouldCombine: has the body of the source and no postcondition, because every answer is right.
- Heat map, framerate and PNG-optimality heuristics: they only choose encodings.
- Parsers.Parser.Read: does not say what a call does after a timeout or a failed read, because the source does not save its position then, nor how an instruction with exactly the maximum number of elements fares, because that depends on where a call starts.
- guac_parser_shift and nested sockets; the character walk of the latter can overshoot the data it covers.
- Printing of negative and floating-point numbers, and the dozens of instructions that only list their arguments.
- Error returns of pthread calls in the lock, and fairness of the underlying lock.
- Surfaces.Surface.SendDirty: models the PNG branch only.
- UserSteps.ReadersSeeNoChange: a callback of a reader may ask for a write lock, but does not add, promote or remove users itself in the model.
- UserLists.Client.Remove: takes the position of the user in its list as a ghost argument; the owner pointer, the notifications and the handlers called outside the locks are not modelled.
- Destruction of the timer when a client is freed.
- Palettes.Hash: the slot at which a search starts is not specified; the laws of the table hold whatever it is.
- Palettes.Build: takes the image as rows without stride padding; the calls into libpng are not modelled.
- Signed overflow of a C int, which C leaves undefined, is taken to wrap around.
- Pools.Client.AllocStream: takes the check of `active` and the allocation as one step; the source does not lock around both.
- ProcMaps.ProcMap.Add: takes the operation as one step, as do the other operations of the map; the locks of bucket and list are not modelled, and the array of buckets is a sequence.
- Freeing lists, pools, maps and clients.
- SFTP transfers themselves, file name appending and upload paths.
- Iconv.Convert: does not cover input that breaks off inside a character, or behind a CR for the normalized reader, because the source then uses an unset value.
- UTF-16, CP-1252 and ISO 8859-1 readers and writers.
- Copying the image between its margins, scaling and encoding, which are foreign code.
- Encoder layers and flattening, JSON, audio and socket output buffers, logging, argument parsing, Wake-on-LAN, SSL, fork and signal handling.
