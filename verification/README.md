# Pixel engine of Microwindows: a verified model

The project models the part of Microwindows that decides, for every pixel of a framebuffer, what it becomes: the
word-level raster operations, the integer ellipse walk, framebuffer blits with their portrait rotation and their
stretching variant, the drawing of one-bit glyphs at 8 and 4 bits a pixel, antialiased glyphs on a palette screen, and
the planar screen of the PC-98.  Two self-contained decoders are modelled beside it: the index of HBF fonts and the
serial mouse protocols.

Every driver routine is a method over the memory it works on, with the branches, masks, pointers and error terms of the
C code.  Its specification says what each pixel, bit, nibble or byte of that memory becomes and that everything else,
padding included, stays as it was.

## How it is laid out

| module | what it is |
|---|---|
| `Bits`, `Rows`, `BitRows` | machine words and bytes as their bits, most significant first; distances in memory; rows of one-bit pixels |
| `Masks`, `Rops`, `Images`, `RasterOps` | `rasterops.c` and the operations of `fb.h`: from one masked word up to `GdRasterOp` |
| `Arc` | `drawarc` of `devarc.c`: both loops |
| `Frames`, `Screens` | byte-addressed framebuffers, walks over them, screens and their portrait modes |
| `FrameBlit`, `Stretch` | `frameblit_blit` and `frameblit_stretchblit` of `convblit_frameb.c`, and the steps `devblit.c` prepares |
| `Linear8`, `Portrait`, `Glyphs`, `PortraitGlyphs`, `Linear4`, `Alpha` | `fblin8.c`, `fblin4.c` and the portrait subdrivers |
| `PackedBlits` | the blits between packed 4bpp surfaces, or within one, of `fblin4.c` and `vgaplan4_mem_pc98.c` |
| `Planes`, `PlaneBlits` | `vgaplan4_pc98.c` and `vgaplan4_mem_pc98.c` |
| `HbfCodes`, `Hbf`, `HbfTranspose`, `HbfFetch` | `hbf.c` |
| `Mouse` | `mou_ser.c` |

Conventions.  A byte or a word is the sequence of its bits, because the drivers only combine them with `&`, `|`, `^`,
`~`, `<<` and `>>`; shifted words keep their width.  Coordinates, pointers and error terms are unbounded integers.
`Row(n, y)` is `n * y`, defined by repeated addition.  The many switch arms of `rasterops.c` differ only in the boolean
function they apply, so each routine is written once and takes the operation as a value (`PixOp` has the arms).  A
screen's virtual pixel `(x, y)` is seen through a `View`, whose `X` and `Y` are the coordinates that the portrait
subdrivers pass on.

## What the proofs found

* The unaligned path of `rasterops.c` shifts native words.  A shift moves pixels just if the masks are not
  byte-reordered (`MergeShiftsPixels`); with the reordered masks every unequal alignment blits some images wrongly
  (`OneWordBlits`), so there `GdRasterOp` promises only that nothing outside the rectangle changes (`Exact`).
* `raster_ops` and `APPLYOP` mean the same for all operations but `XOR_FGBG`, `SRC_OUT`, `DST_OUT`, `PORTERDUFF_XOR` and
  `SRCTRANSCOPY` (`RasterOpsMeaning`), which `GdRasterOp` draws as XOR, as a copy or not at all (`OtherRops`); `applyOpR`
  and `APPLYOP` for all but the last two of these (`ApplyOpRAgrees`).
* Where its two loops meet, `drawarc` may be further than half a pixel from the ellipse, as for rx = ry = 2
  (`NotNearAtTurn`).  It is so just if some point of the part flatter than 45 degrees has the ellipse within half a
  pixel, while its neighbour to the right and below is no longer in that part and has the ellipse further below
  (`TurnsFar`, `NearAtTurn`, `DrawArc`).
* `drawarc` reaches the tip just if rx^2 / 4, rounded down, is at most ry^2 (2 rx - 1) (`TipMissedExactly`, `DrawArc`); for
  rx = 8, ry = 1 it does not (`TipMissed`).
* A 4bpp pixel value that does not fit a nibble spoils the pixel to its left (`StoreSpares`).
* `linear4_blit` and `mempl4_to_mempl4_blit` copy in one direction only.  Within one surface a copy is right for all
  contents just if the destination comes first or the rectangles are apart (`RightExactly`, `Ahead`); `linear4_blit`, which
  holds the byte it has fetched, also moves two pixels of one byte right by one.
* `add_code_range` stores 16 bits of a code but numbers the range from the untruncated one.  The index stays well formed just
  if the range starts with a 16-bit code and its truncated finish is not below it (`AcceptedKeeps`): 0x10000-0x10000 and
  5-0x10003 are accepted and break it, 3-0x10005 is stored as 3-5 and does not (`TruncationMissed`).
* `add_code_range` does not check the sign of an offset: a bitmap eight bytes in front of its file is accepted
  (`NegativeOffsetAccepted`).  The bitmaps of a range lie inside its file just if its offset is not negative
  (`InFileExactly`).
* A range that is rejected for any reason but an overlap stays in the list (`AddCodeRange`).
* `vga_to_mempl4_blit` stores whole bytes: it fetches a rectangle exactly just if the destination column and the width are
  even (`EvenFetches`, `OddMisses`).
* The XOR mode of `pc98_drawhorzline` does not end for a line over whole bytes whose colour leaves out a plane
  (`EndsExactly`, `NeverEnds`).
* A flipped stretch mirrors the sampling points and, for some pixels, shows the neighbour of the source pixel that
  contains the point (`FlippedContains`, `FlippedMisses`).  So what a column shows depends on where the clip rectangles
  begin (`ClippedAlike`, `ClippedShows`), which it does not unflipped (`AxisSamples`).  A start left of the source puts the
  error term out of range unless it is whole (`PreparedReadyExactly`, `StartsOutOfRange`).
* The comments of `vgaplan4_pc98.c` say that lines do not include their final point; the code draws it, and the model
  follows the code.
* The portrait glyph routines take `srcx` for a number of bytes, so that a nonzero one selects bit `8 * srcx`: the bitmap
  asked for is drawn just if the mode is upright or `srcx` is zero (`SourceAsAsked`, `OtherBitDrawn`).

## Model

| member | source | states |
|---|---|---|
| `RasterOps.GdRasterOp` | src/drivers/rasterops.c:301-339 | for every rectangle, depth, byte order and operation, each pixel of the clipped rectangle becomes op(source pixel, pixel) as APPLYOP defines it, where XOR_FGBG and PORTERDUFF_XOR are drawn as XOR, DST_OUT and SRCTRANSCOPY as COPY and SRC_OUT as NOOP; for all alignments in big-endian order and for equal ones with the byte-reordered masks, and in any case no other bit of the memory changes |
| `RasterOps.RasteropLow` | src/drivers/rasterops.c:798-887 | clipping and dispatch together: exactly the requested bits that lie in both images are changed, and combined with their source bits where the shifts move pixels |
| `RasterOps.Clip` | src/drivers/rasterops.c:830-871 | for all signed coordinates, the positions kept are those inside both images, and the pairing of destination and source stays |
| `RasterOps.RasteropUniLow` | src/drivers/rasterops.c:434-490 | the destination-only operations set exactly the bits of the clipped rectangle |
| `RasterOps.RasteropWordAlignedLow` | src/drivers/rasterops.c:917-1116 | full words and a masked last word, row by row, blit the rectangle |
| `RasterOps.RasteropVAlignedLow` | src/drivers/rasterops.c:1143-1617 | with equal alignments, the partial or doubly partial first word, the full words and the partial last word blit the rectangle |
| `RasterOps.RasteropGeneralLow` | src/drivers/rasterops.c:1666-2444 | with different alignments, the shift-and-merge source blits the rectangle in big-endian order, also where it fetches a word past the last one it needs, and changes nothing outside it in either order |
| `RasterOps.GeneralAligns` | src/drivers/rasterops.c:1721-1811 | the chosen shifts, merges and directions bring every source bit of a big-endian word to its destination bit |
| `RasterOps.SourceWordBit` | src/drivers/rasterops.c:1817-1860 | bit k of the shifted and merged source word is the source pixel bit that belongs there |
| `RasterOps.MergeShiftsPixels` | src/drivers/rasterops.c:386-411 | a shift of native words with its merge mask moves pixels if and only if the masks are in big-endian order |
| `RasterOps.OneWordBlits` | src/drivers/rasterops.c:1666-2444 | for every unequal alignment, the unaligned path blits a word rightly for all contents if and only if the masks are in big-endian order |
| `RasterOps.BlitThen` | src/drivers/rasterops.c:1143-1617 | doing two parts of a rectangle one after the other is doing the rectangle, within one image too if the rectangles do not overlap |
| `RasterOps.DrawnPixels` | src/drivers/rasterops.c:818-828 | combining bits of rows scaled by the depth is combining whole pixels |
| `Masks.LMaskTable` | src/drivers/rasterops.c:386-411 | both left mask tables select the first n pixels of a word in their byte order |
| `Masks.RMaskTable` | src/drivers/rasterops.c:386-411 | both right mask tables select the last n pixels of a word in their byte order |
| `Rops.PixOpIsTable` | src/drivers/rasterops.c:60-122 | each flag, read as a truth table, is what its switch arm computes on every bit |
| `Rops.RasterOpsMeaning` | src/drivers/rasterops.c:129-158 | the translated operation agrees with APPLYOP on all bits if and only if it is not one of five compositing ones |
| `Rops.OtherRops` | src/drivers/rasterops.c:129-158 | what each of the five does to a bit, and what APPLYOP would do |
| `Rops.ApplyOpPixel` | src/drivers/fb.h:56-157 | every operation but one acts on each bit of a pixel by itself |
| `Rops.ApplyOpRAgrees` | src/drivers/fb.h:159-209 | the returning form agrees with APPLYOP on all bytes if and only if the operation is neither of two |
| `Rops.TwoOps` | src/drivers/fb.h:56-209 | on these two, SRCTRANSCOPY replaces just the pixels that are zero and PORTERDUFF_XOR combines with the background, while the returning form keeps and clears every pixel |
| `Arc.Region1Step` | src/engine/devarc.c:459-467 | one round of the first loop keeps the error term equal to the ellipse equation at the next midpoint, and both half-pixel bounds |
| `Arc.ErrorTerm` | src/engine/devarc.c:430-434 | d is B(xp+1)^2 + A yp(yp-1) + A/4 - AB at every head of the first loop |
| `Arc.NearAtTurn` | src/engine/devarc.c:437-470 | for all axes, where the first loop stops the ellipse is within half a pixel above, and below unless some point flatter than 45 degrees has it within half a pixel and a neighbour to the right and below that is not flatter and has it further below; and only then it is not |
| `Arc.NotNearAtTurn` | src/engine/devarc.c:437-470 | the half-pixel bound fails at the head where the first loop of rx = ry = 2 stops |
| `Arc.TipMissedExactly` | src/engine/devarc.c:421-470 | for all axes, the first loop stops in row 0 short of the tip if and only if floor(rx^2/4) > ry^2 (2 rx - 1) |
| `Arc.TipMissed` | src/engine/devarc.c:437-470 | the first loop of rx = 8, ry = 1 stops in row 0, one column short of the tip |
| `Arc.FirstLoop` | src/engine/devarc.c:421-468 | terminates, after rounds of the body; every point drawn has the ellipse within half a pixel above and below it, a filled row is drawn as wide as that holds, and the next point has it if and only if d <= dx + B |
| `Arc.Region2Start` | src/engine/devarc.c:470 | the correction between the loops makes d the equation at the next midpoint of the second loop, rounded down by at most one |
| `Arc.Region2Step` | src/engine/devarc.c:479-486 | one round of the second loop keeps that, the horizontal bounds and the column in range |
| `Arc.SecondLoop` | src/engine/devarc.c:472-488 | terminates; draws one segment for every row that is left, and ends at the tip if it starts above row 0 |
| `Arc.DrawArc` | src/engine/devarc.c:403-490 | all segments are in range, columns never fall, rows never rise, an outline is connected, a fill has every row once and as wide as it may be, all bounds hold, going down the column changes just if the ellipse passes beyond the middle of the two, the half-pixel bound holds at the turn if and only if there is no such point, and the tip is reached if and only if floor(rx^2/4) <= ry^2 (2 rx - 1) |
| `FrameBlit.FrameBlit` | src/engine/convblit_frameb.c:255-470 | for any overlap within one buffer, any portrait mode, 1 to 4 bytes a pixel and every bitwise operation up to MWROP_MAX, each virtual pixel of the destination rectangle becomes, as a whole word, APPLYOP of the operation asked for on the old source pixel and the old pixel, and no other byte changes |
| `FrameBlit.TurnedIsImage` | src/engine/convblit_frameb.c:42-88 | the rotated rectangles are the images of the virtual ones, and corresponding pixels correspond |
| `FrameBlit.BlitParms.RotateFrame` | src/engine/convblit_frameb.c:42-88 | the macro leaves the rotated rectangles in the parameters |
| `FrameBlit.BlitParms.RotateConv` | src/engine/convblit_frameb.c:178-221 | the macro leaves the first physical pixel and gives the pointer steps of the turned walk |
| `FrameBlit.FrameAhead` | src/engine/convblit_frameb.c:282-301 | with the chosen directions no source pixel is overwritten before it is read |
| `FrameBlit.ConvTarget` | src/engine/convblit_frameb.c:172-221 | walking over the turned rectangle from an upright source is the virtual blit |
| `FrameBlit.BlendIsApplyOp` | src/drivers/fb.h:56-157 | blending the bytes of a pixel one by one is APPLYOP on the whole pixel |
| `FrameBlit.BlitRow` | src/engine/convblit_frameb.c:428-461 | one row, in either direction, advances the walk by all its pixels |
| `Stretch.StretchBlit` | src/engine/convblit_frameb.c:498-602 | in every portrait mode each virtual pixel of the destination shows the source pixel the steps lead to, and no other byte changes |
| `Stretch.OneStep` | src/engine/convblit_frameb.c:578-600 | the error term stays in [-den, 0) and the source offset is k*step + floor((err0+den+k*err_step)/den)*one after k steps |
| `Stretch.Samples` | src/engine/devblit.c:534-559 | unflipped, destination pixel k shows source pixel floor((fraction + k*num)/den) |
| `Stretch.SamplesFlipped` | src/engine/devblit.c:534-559 | flipped, it shows the pixel as far back as an unflipped stretch goes forward |
| `Stretch.FlippedContains` | src/engine/devblit.c:534-559 | that is the pixel containing the point if and only if the point and its mirror image round alike |
| `Stretch.AxisSamples` | src/engine/devblit.c:535-556 | unflipped, every destination column m shows the source column c with c <= s1 + (m + 1/2) w/n < c + 1, that is the one that contains its centre, wherever a clip rectangle begins |
| `Stretch.AxisStays` | src/engine/devblit.c:535-559 | unflipped, the steps are in range and every destination column shows one of the source columns asked for |
| `Stretch.FlippedStays` | src/engine/devblit.c:535-559 | flipped, too: columns s2 to s1 - 1 |
| `Stretch.ClippedAlike` | src/engine/devblit.c:535-556 | flipped, the first column of a clip rectangle shows the pixel that contains its centre, and the same as without that clipping if and only if the centre and its mirror image round alike |
| `Stretch.FlippedMisses` | src/engine/devblit.c:384-385 | from source column 2 back to 0 over three columns, the second one shows source column 0 |
| `Stretch.ClippedShows` | src/engine/devblit.c:535-556 | if a clip rectangle begins there, it shows source column 1, which contains its centre |
| `Stretch.PreparedReadyExactly` | src/engine/devblit.c:543-556 | the prepared error term is in range if and only if the start is not left of the source, or whole |
| `Stretch.StartsOutOfRange` | src/engine/devblit.c:535-556 | source columns -1 to 1 over two columns start with an error term out of range |
| `Stretch.PixelSampled` | src/engine/devblit.c:534-559 | with the steps prepared for an unflipped stretch, both axes sample the pixel that contains the point |
| `Screens.View.Bijective` | src/drivers/fbportrait_left.c:18-28 | in each portrait mode every physical pixel shows exactly one virtual pixel |
| `Screens.Psd.SetPortrait` | src/drivers/genmem.c:290-311 | the virtual size is the physical one, turned as the mode says |
| `Screens.Psd.CalcMemGCAlloc` | src/drivers/genmem.c:227-288 | a pixmap of four planes takes 4 bits a pixel, any other the depth asked for or else that of the screen; the pitch is the least multiple of four bytes that holds a row of the turned pixmap, the size holds all rows, and other depths are refused |
| `Portrait.DrawPixel` | src/drivers/fbportrait_left.c:18-22 | draws on the virtual pixel once and on nothing else, in every mode and operation |
| `Portrait.ReadPixel` | src/drivers/fbportrait_right.c:24-28 | reads the virtual pixel |
| `Portrait.DrawHorzLine` | src/drivers/fbportrait_down.c:32-38 | draws on each virtual pixel of the line once and on nothing else |
| `Portrait.DrawVertLine` | src/drivers/fbportrait_right.c:40-47 | draws on each virtual pixel of the line once and on nothing else |
| `Portrait.FillRect` | src/drivers/fbportrait_left.c:49-69 | covers exactly the virtual rectangle, each pixel once |
| `Portrait.GenFillRect` | src/drivers/genmem.c:344-364 | covers exactly the virtual rectangle, each pixel once, by columns or by rows |
| `Portrait.DrawnBack` | src/drivers/fbportrait_down.c:18-71 | a virtual drawing determines the physical one: nothing can change outside what the virtual screen shows |
| `Linear8.DrawPixel` | src/drivers/fblin8.c:38-57 | the pixel is operated on once, nothing else changes |
| `Linear8.DrawHorzLine` | src/drivers/fblin8.c:71-97 | each pixel of the line is operated on once, nothing else changes |
| `Linear8.DrawVertLine` | src/drivers/fblin8.c:99-129 | each pixel of the line is operated on once, nothing else changes |
| `Glyphs.SplitCovers` | src/drivers/fblin8.c:397-456 | prefix, whole bytes and suffix have as many bits as the row and as many bytes as it touches, for every srcx and width |
| `Glyphs.PieceDrawn` | src/drivers/fblin8.c:458-541 | the bits of one piece are the next bits of the row |
| `Glyphs.StrokesOn` | src/drivers/fblin8.c:458-541 | rows drawn one pitch apart give each pixel of the rectangle its own bit, and leave all others |
| `Linear8.DrawRow` | src/drivers/fblin8.c:460-494 | one row equals the bit-at-a-time loop and consumes exactly the bytes the row touches |
| `Linear8.CopyMaskMonoByteMSB` | src/drivers/fblin8.c:371-552 | each pixel becomes the foreground under a set bit and the background, or nothing, under a clear one; no other byte changes |
| `PortraitGlyphs.Turn` | src/drivers/fbportrait_left.c:160-184 | the loops put every bit of the bitmap at its turned place |
| `PortraitGlyphs.SourceAsAsked` | src/drivers/fbportrait_left.c:160-184 | the routines draw the bitmap asked for, whatever it holds, if and only if the mode is upright or srcx is zero |
| `PortraitGlyphs.OtherBitDrawn` | src/drivers/fbportrait_left.c:160-184 | for the right one of two pixels the first bit of the next byte is drawn |
| `PortraitGlyphs.TurnedGlyph` | src/drivers/fbportrait_right.c:131-186 | drawing the turned bitmap on the physical screen is drawing the bitmap on the virtual one |
| `PortraitGlyphs.CopyMaskMonoByteMSB` | src/drivers/fbportrait_down.c:136-191 | through any portrait mode, virtual pixel (dstx+i, dsty+j) takes bit (i, j), and nothing else changes |
| `Linear4.StoreAt` | src/drivers/fblin4.c:25-29 | the read-modify-write changes one nibble of the memory and keeps its neighbour |
| `Linear4.StoreSpares` | src/drivers/fblin4.c:25-29 | it keeps the neighbour of every odd pixel if and only if the value fits a nibble |
| `Linear4.DrawPixel` | src/drivers/fblin4.c:31-50 | the pixel is operated on once, no other nibble changes |
| `Linear4.ReadPixel` | src/drivers/fblin4.c:52-65 | reads the pixel's nibble: the high one of its byte for an even column, the low one for an odd column |
| `Linear4.DrawHorzLine` | src/drivers/fblin4.c:67-96 | each pixel of the line is operated on once, no other nibble changes |
| `Linear4.DrawVertLine` | src/drivers/fblin4.c:98-126 | each pixel of the line is operated on once, no other nibble changes |
| `Linear4.DrawRow` | src/drivers/fblin4.c:281-329 | one row equals the bit-at-a-time loop on nibbles and consumes exactly the bytes the row touches |
| `Linear4.CopyMaskMonoByteMSB` | src/drivers/fblin4.c:186-394 | each pixel becomes the foreground under a set bit and the background, or nothing, under a clear one; no other nibble changes |
| `PackedBlits.Blit` | src/drivers/fblin4.c:128-184 | for every pair of columns and every overlap, the result is the run of the loops; each pixel is combined with what its source pixel was before, by the operation asked for or COPY above MWROP_SIMPLE_MAX, and no other nibble changes, between two surfaces always and within one if the destination keeps ahead |
| `PackedBlits.Blitting.RunRight` | src/drivers/fblin4.c:150-182 | the run is right at every column as long as the destination keeps ahead of the source |
| `PackedBlits.AheadExactly` | src/drivers/fblin4.c:155-181 | with the byte held or not, the destination keeps ahead if and only if no source pixel is drawn on before it is fetched |
| `PackedBlits.SpoiledWrong` | src/drivers/fblin4.c:155-181 | a source pixel that is drawn on before it is fetched is copied wrongly if it is set alone |
| `PackedBlits.RightExactly` | src/drivers/fblin4.c:150-182 | copying within one surface is right for all contents if and only if the destination keeps ahead |
| `Alpha.NoCarry` | src/drivers/fblin8.c:147-158 | the channels of the entries for a and 31-a add up to less than 32, for all colours |
| `Alpha.MixedNear` | src/drivers/fblin8.c:147-158 | a channel mixed of a parts of one colour and 31 - a parts of another is their weighted mean, less than two of its 32 levels rounded down |
| `Alpha.SumIsChannelwise` | src/drivers/fblin8.c:585-591 | the sum of the two entries is the channelwise sum and an index below 32768 |
| `Alpha.Tables.constructor` | src/drivers/fblin8.c:132-173 | both tables hold, at every index, what the blend looks up there |
| `Alpha.BlendPixel` | src/drivers/fblin8.c:578-597 | one pixel through the tables is the nearest colour to the channelwise mixture, which lies level/8 parts of 31 on the way from the pixel to the foreground |
| `Alpha.BlendMaskAlphaByte` | src/drivers/fblin8.c:559-609 | every pixel of the rectangle shows the foreground under 255, the background or itself under 0, and otherwise the entry nearest to a colour as far on the way to the foreground as its alpha value says; nothing else changes |
| `Planes.ReadPixel` | src/drivers/vgaplan4_pc98.c:84-103 | the value has the pixel's bit of plane p as its bit p, and the planes are at 0xa8000, 0xb8000, 0xb0000 and 0xe0000 |
| `Planes.DrawPixel` | src/drivers/vgaplan4_pc98.c:51-82 | the pixel has the colour on all planes, or that of its old colour and the new one combined in XOR mode, nothing else changes |
| `Planes.XorTwice` | src/drivers/vgaplan4_pc98.c:63-69 | drawing the same in XOR mode twice restores every pixel |
| `Planes.DrawHorzLine` | src/drivers/vgaplan4_pc98.c:121-206 | in COPY and XOR mode, single pixels, whole bytes and single pixels draw on exactly the pixels of the line, each once |
| `Planes.EndsExactly` | src/drivers/vgaplan4_pc98.c:168-203 | all loops of a line end if and only if it is not in XOR mode, has no whole byte before its last one, or its colour is in every plane |
| `Planes.NeverEnds` | src/drivers/vgaplan4_pc98.c:168-203 | an XOR line that does not end |
| `Planes.LoopEnds` | src/drivers/vgaplan4_pc98.c:191-196 | the loop over the whole bytes of a plane ends if and only if there are none, or the plane is drawn on |
| `Planes.DrawHorzLineSlowly` | src/drivers/vgaplan4_pc98.c:206-219 | the pixel-by-pixel form has the same result |
| `PlaneBlits.MemToVga` | src/drivers/vgaplan4_mem_pc98.c:257-312 | the planar rectangle shows the packed one, nothing else changes |
| `PlaneBlits.VgaToMem` | src/drivers/vgaplan4_mem_pc98.c:314-370 | what becomes of every nibble of the packed memory, for every column and width |
| `PlaneBlits.EvenFetches` | src/drivers/vgaplan4_mem_pc98.c:346-366 | with an even destination column and width the rectangle is fetched exactly and nothing else changes |
| `PlaneBlits.OddMisses` | src/drivers/vgaplan4_mem_pc98.c:346-366 | with either odd there are contents for which it is not |
| `PlaneBlits.RoundTrip` | src/drivers/vgaplan4_mem_pc98.c:257-370 | a block put on the planes and fetched again is restored, and everything around it stays |
| `PlaneBlits.MemToMem` | src/drivers/vgaplan4_mem_pc98.c:144-187 | for every pair of columns and every overlap, the result is the run of the loops, which copies the rectangle and changes no other nibble, between two surfaces always and within one if the destination keeps ahead |
| `HbfCodes.AddedSorted` | src/drivers/hbf.c:280-296 | inserting a range that is apart from the others keeps the list sorted and disjoint |
| `HbfCodes.AddedAllSorted` | src/drivers/hbf.c:280-296 | inserting any ranges that are apart one by one gives a sorted list of exactly these and the old ones |
| `HbfCodes.OrderOfAdding` | src/drivers/hbf.c:280-296 | the list does not depend on the order of insertion |
| `HbfCodes.PositionInverse` | src/drivers/hbf.c:298-347 | code_of undoes the numbering of legal codes |
| `HbfCodes.CodeOfInverse` | src/drivers/hbf.c:328-347 | every position is that of a legal code, namely the one code_of gives |
| `HbfCodes.PositionMonotone` | src/drivers/hbf.c:298-313 | positions are in the order of the codes |
| `Hbf.HbfStruct.AddB2r` | src/drivers/hbf.c:280-296 | the loop inserts in front of the first range that does not start earlier |
| `Hbf.HbfStruct.B2Pos` | src/drivers/hbf.c:298-313 | the loop gives the number of legal second bytes before this one, or BAD_CHAR_INDEX if it is not legal |
| `Hbf.HbfStruct.CountB2` | src/drivers/hbf.c:315-325 | the loop counts the legal second bytes |
| `Hbf.HbfStruct.FindCode` | src/drivers/hbf.c:328-347 | the loop finds the code of a position |
| `Hbf.HbfStruct.TooShort` | src/drivers/hbf.c:708-731 | tells whether the last bitmap ends behind the end of the file |
| `Hbf.HbfStruct.AddCodeRange` | src/drivers/hbf.c:778-838 | accepts exactly the ranges that are legal and share no code with one in the list, inserts in order all that do not overlap, and keeps the index well formed if and only if the range does not wrap around |
| `Hbf.OverlapsExactly` | src/drivers/hbf.c:807-815 | looking at the first range that does not end before it finds out, for every well-formed list, whether the range shares a code with any |
| `Hbf.AcceptedKeeps` | src/drivers/hbf.c:778-838 | an accepted range keeps the list sorted, disjoint, correctly numbered and before the ends of the files if and only if it starts with a 16-bit code and its truncated finish is not below that |
| `Hbf.StoredAsGiven` | src/drivers/hbf.c:802-803 | what is stored has the same codes as the line if and only if they fit 16 bits |
| `Hbf.TruncationMissed` | src/drivers/hbf.c:802-838 | two accepted ranges beyond 16 bits that break the index, and one that does not |
| `Hbf.BitmapsInFile` | src/drivers/hbf.c:708-731 | the one check at the finish code puts the bitmaps of all legal codes of the range between its offset and the end of the file |
| `Hbf.InFileExactly` | src/drivers/hbf.c:708-731 | all of them lie inside the file if and only if the offset is not negative |
| `Hbf.NegativeOffsetAccepted` | src/drivers/hbf.c:790-838 | an accepted range whose first bitmap is eight bytes in front of the file |
| `Hbf.BitmapsApart` | src/drivers/hbf.c:1232-1240 | the bitmaps of distinct codes do not overlap |
| `Hbf.HbfStruct.GetBitmap` | src/drivers/hbf.c:1220-1240 | finds a bitmap exactly for the legal codes of the ranges, at their place, which is before the end of the file, and inside it if the offset of the range is not negative |
| `Hbf.AllCodesAscend` | src/drivers/hbf.c:1405-1440 | the enumeration is strictly ascending and has exactly the legal codes of all ranges |
| `Hbf.HbfStruct.ForEach` | src/drivers/hbf.c:1405-1440 | the cursor loops visit that enumeration |
| `Hbf.HbfStruct.Chars` | src/drivers/hbf.c:1449-1466 | the count is the length of that enumeration |
| `HbfTranspose.GetTransposed` | src/drivers/hbf.c:1351-1399 | output bit (x, y) is bit y of input row x, the filling bits are clear, exactly width * ceil(height/8) bytes are consumed, and it fails just if the file is shorter |
| `HbfFetch.BitmapSizeIs` | src/drivers/hbf.c:178-184 | a bitmap takes the bytes of its rows, or of its columns if it is transposed |
| `HbfFetch.NextBitmap` | src/drivers/hbf.c:1237-1240 | the bitmap of the next legal code begins where this one ends |
| `HbfFetch.Invert` | src/drivers/hbf.c:1293-1300 | every bit of the buffer is inverted |
| `HbfFetch.Fetch` | src/drivers/hbf.c:1220-1279 | succeeds exactly for the legal codes of the ranges whose place is not in front of the file; every bit of the result is the bit of the character in the file, by rows or by columns, or its opposite if the range is inverted |
| `Mouse.DecodeJoin` | src/drivers/mou_ser.c:334-360 | a stream can be decoded piece by piece |
| `Mouse.DecodePackets` | src/drivers/mou_ser.c:366-488 | any sequence of packets of each format, with any buttons held, decodes to the motions and buttons they stand for |
| `Mouse.DecodeMS` | src/drivers/mou_ser.c:427-455 | decoding inverts the two's complement packing for all motions in [-128, 127] |
| `Mouse.ButtonsMeant` | src/drivers/mou_ser.c:339-344 | the bits that each mouse sends for its left, middle and right button are reported as MWBUTTON_L, MWBUTTON_M and MWBUTTON_R |
| `Mouse.StartsExactly` | src/drivers/mou_ser.c:366-488 | in IDLE, a byte begins a packet if and only if it has the bits that its format begins with, and otherwise changes nothing |
| `Mouse.AfterNoise` | src/drivers/mou_ser.c:366-488 | a packet after any bytes that begin none decodes to what it stands for |
| `Mouse.Driver.Read` | src/drivers/mou_ser.c:303-360 | what has been reported and what is still buffered always make up the decoding of all bytes read |
| `Mouse.Poll` | src/drivers/mou_ser.c:303-360 | what a polling program sees depends on the bytes alone, not on how reads split them |
| `Mouse.PollPackets` | src/drivers/mou_ser.c:303-360 | for packets split anyhow, it sees exactly the motions they stand for and the buttons held |

## Left out

- RasterOps.GdRasterOp: what the unaligned path draws inside the rectangle with the byte-reordered masks is not stated, because shifts of native words do not move pixels there (`MergeShiftsPixels`, `OneWordBlits`); overlapping rectangles within one image are excluded, because the code has no direction of copying and makes no promise for them.
- RasterOps.RasteropGeneralLow: the word it may fetch past the last one it needs is a parameter, and the result does not depend on it; that memory is readable is not modelled.
- Arc.DrawArc: dash patterns, clipping and the mirroring of a segment into the four quadrants are not modelled; the axes are at least one.
- FrameBlit.FrameBlit: SRC_OVER at 32 bits, BLENDCONSTANT, XOR_FGBG, PORTERDUFF_XOR and SRCTRANSCOPY are not modelled; two buffers are either one surface or share no memory.
- Stretch.StretchBlit: only COPY between pixels of one size, from an upright source on a separate surface; format conversion goes through RGB2PIXEL, which is not part of this model.
- PackedBlits.Blit: INVERT4BPP is not modelled.
- PortraitGlyphs.CopyMaskMonoByteMSB: failing memory allocation is not modelled.
- Planes.DrawHorzLine: XOR lines that do not end (`EndsExactly`) are excluded; vertical lines are not modelled.
- Hbf.HbfStruct.AddCodeRange: the position of a rejected range is unspecified where the code leaves it unset; the wrap-around of code_pos at 32 bits is not modelled; bitmap file sizes and parsed lines are inputs.
- Mouse.Driver.Read: the dropping of bytes on slow machines (SLOW_CPU) is not modelled; opening the port is not.
- The overflow of C integers, in coordinates, pitches, squares of axes and sizes.
- The LSB glyph routines, whose last loop does not end for some widths, and whose portrait forms do not pass on the destination buffer.
- Update callbacks, cursor and clipping regions, and the DRAWON and DRAWOFF counters.
- The parsing of HBF text, and the IN_MEMORY variant of `hbf.c`.
- The latch and set/reset hardware of VGA planes, and vga_to_vga_blit, which works only for equal columns modulo eight.
- Clipping of lines, GdArc slices and angles, palettes other than as inputs, and GdFindNearestColor, which is a parameter of the alpha tables.
