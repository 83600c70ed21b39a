# EARaster, header text and clipboard: a verified model

This project models four parts of the EAWebKit sources and proves what they do.

* **The software rasteriser EARaster.** A surface is a class with a flat pixel
  array, width, height, stride and clip rectangle; pointers are array indices,
  and 32-bit words are four byte lanes with wrap-around arithmetic. Modelled are
  clipping and blitting with all portable kernels, tiling, the copy inside one
  surface, rectangles, lines, circles, ellipses, polygons, zoom and rotation.
* **The header map printer and parser**, a four-mode character machine, for the
  format of section 4.2 of RFC 2616.
* **The clipboard table**, an array kept without gaps, and its reference counts.

Loops and methods that change surfaces, buffers and tables are methods with loop
invariants, proved against specifications on the contents before the call.
Integers are unbounded except where the source relies on wrap-around (the pixel
words and the accumulator of the anti-aliased line).

## Modules

| files | part |
|---|---|
| Arithmetic, Words, Rects, PixelFormats, Surfaces | products and quotients, 32-bit words, rectangles, formats, surfaces |
| Blend, Kernels, BlitRows, Blit, Refinement, Tiling, OverlapCopy | blitting |
| Drawing, Pixels, Repaint, SpanRows | pixels, spans, fills |
| TinyCircle, Circle, FilledCircle, Orbit, FilledEllipse, EllipseOutline, EllipseShape | circles and ellipses |
| LineClipping, LineDrawing, WuLine | lines |
| Sorting, Crossings, PolygonFill | polygons |
| Zoom, Rotate | resampling |
| HeaderMaps, HeaderText, HeaderParser, HeaderRoundTrip | header text |
| Clipboard | clipboard |

## Where the code does something else than one would expect

Each is a proved statement of the model.

* Blitting onto a surface whose clip rectangle is larger than itself, as that of
  a new surface is, reads every further source row from the wrong place when
  columns are cut off at the edge (`Blit.ReadsStraight`,
  `Blit.UnclippedDestinationReadsAskew`).
* The general blend kernel, which RGBA sources get, sets the lowest alpha bit of an
  ARGB destination when blue goes down (`Kernels.GeneralBlendAndAlpha`), and on
  destinations without alpha it never blends (`Kernels.GeneralWithoutAlphaCopies`).
* Converting a surface without alpha to a format with alpha in another channel order
  leaves every pixel transparent (`Kernels.OtherFormatsConvert`).
* A shifted tile pattern can leave a strip at the end uncovered, exactly when an
  axis is not covered (`Tiling.CoversAxis`, `Tiling.CoversRectangle`).
* The circle outline is not clipped: it keeps to the clip rectangle exactly when its
  bounding box does (`Circle.OutlineIgnoresClip`). The filled circle covers the
  outline of the same radius only for the radii 0, 1, 3 and 4
  (`FilledCircle.FillCoversOutline`).
* The outline of radius 2, a square without corners by its comment, has three of its
  corners, one of them painted twice (`TinyCircle.MicroCircle`).
* The clip test of the ellipse outline measures rows by the width of the clip
  rectangle and is one too wide (`Repaint.ClipTestIsWrong`); the outline
  paints its top pixel at least twice (`EllipseOutline.EllipseColor`).
* The filled ellipse leaves its top and bottom row out when its vertical radius is
  65535 (`FilledEllipse.AllRowsUnlessMarked`).
* An opaque line differs from the same line drawn backwards, unless its length in
  pixels is a multiple of its pixels across (`LineDrawing.OpaqueLineIsReversible`),
  and a translucent straight smoothed line
  given backwards is not drawn (`WuLine.BackwardLineVanishes`).
* After a refused growth the polygon buffer serves only larger polygons
  (`PolygonFill.RefusedGrowth`).
* The interpolating zoom reads outside its source when flipped or when the source
  has a single column or row (`Zoom.SmoothNeedsRoom`).
* The header printer needs one character more than its documentation says
  (`HeaderText.CapacityAboveLength`). The parser keeps the blanks of a continuation
  line that its comment says it eats (`HeaderRoundTrip.ContinuationKeepsBlanks`) and
  reports a line without a colon exactly when another line begins behind it
  (`HeaderRoundTrip.MissingColonOnLastLine`). A key that begins with a character
  beyond 127 is read as another one in the first line than in later ones
  (`HeaderRoundTrip.FirstCharacterDiffers`).
* The clipboard table falls into disorder for data of the type that marks empty
  slots, and when the entry to be evicted has the type that means all types
  (`Clipboard.Table.StoreNewest`).

## Model

| member | source | states |
|---|---|---|
| Rects.RectVar.ConstrainRect | include/EARaster/EARaster.h:171-206 | The rectangle becomes its common part with this one, or empty if there is none; one that already lies inside stays as it is. |
| Rects.IntersectRect | source/EARaster.cpp:398-425 | The result is the common part with sides cut off at zero, also when it is written over one of the operands; it reports whether anything is common. |
| Surfaces.Surface.SetClipRect | source/EARaster.cpp:304-312 | The clip rectangle admits exactly the surface pixels that the given rectangle has; with none given, all surface pixels. |
| Surfaces.Surface.constructor | source/EARaster.cpp:64-70 | A new surface has its format, size and stride, no cached kernel, and a clip rectangle larger than itself. |
| Surfaces.Image.IndexInData | include/EARaster/EARaster.h:213-260 | Every pixel of a surface lies inside its pixel buffer. |
| Blit.ClipToSource | source/EARasterBlit.cpp:437-468 | One axis of cutting the source rectangle to its surface: what is cut off in front moves the destination by as much. |
| Blit.ClipToDest | source/EARasterBlit.cpp:477-508 | One axis of cutting the destination to the clip rectangle: the source start moves along. |
| Blit.ClipForBlit | source/EARasterBlit.cpp:419-528 | Whether anything is left is whether the available source pixels, moved to the destination, meet the clip rectangle; the two rectangles handed on are that meeting part and its image at the fixed offset. |
| Blit.CutTo | source/EARasterBlit.cpp:718-763 | The four tests against the extra clip rectangle give the meeting part and the source rectangle that goes with it. |
| Blit.CutRects | source/EARasterBlit.cpp:706-772 | All clipping of a blit together: the destination is the region on the surface, the source keeps the offset. |
| Blit.RegionHas | source/EARasterBlit.cpp:419-528 | A pixel belongs to the region of a blit if and only if the source rectangle, the source surface, the clip rectangle and the extra clip rectangle have it; the size of a destination rectangle does not count. |
| Blit.RegionFits | source/EARasterBlit.cpp:767-772 | With the clip rectangle inside the surface the last cut changes nothing: the region lies on the surface already. |
| Blit.BlitNoClip | source/EARasterBlit.cpp:779-844 | Runs the kernel over two rectangles of the array: every destination pixel becomes the kernel function of its old value and of the pixel the row loop reads; padding and all other pixels stay; the kernel is chosen once per destination. |
| Blit.Blit | source/EARasterBlit.cpp:706-776 | For different surfaces: exactly the pixels of source rectangle, source surface, clip rectangle and extra clip rectangle change, each to the pixel function of its old value and the source pixel at the fixed offset, whenever the clip rectangle lies inside the destination. |
| Blit.BlitCopying | source/EARasterBlit.cpp:706-776 | A blit between surfaces of one 32-bit format that does not blend leaves the source pixels in the region, bit by bit. |
| Blit.BlittedIsCopied | source/EARasterBlit.cpp:1130-1146 | The same for whatever the selected kernel and its loop leave. |
| Blit.ReadsStraight | source/EARasterBlit.cpp:829-836 | The row loop reads every pixel at the fixed offset if and only if no columns were cut off at the edge of the surface or there is at most one row. |
| Blit.UnclippedDestinationReadsAskew | source/EARasterBlit.cpp:767-772 | Counterexample: a new destination whose clip rectangle is larger than itself gets rows from the wrong place. |
| Blit.BlockIsRect | source/EARasterBlit.cpp:826-836 | A block of rows in the pixel array is a rectangle of the surface, pixel by pixel. |
| BlitRows.DuffRow | source/EARasterBlit.cpp:238-266 | An unrolled loop entered in the middle handles each of width pixels exactly once, in order; a width of zero still runs one full round. |
| BlitRows.DuffEntry | source/EARasterBlit.cpp:238-266 | The remainder case and the rounds of the unrolled loop add up to the width. |
| BlitRows.DoubleRow | source/EARasterBlit.cpp:274-289 | An odd pixel and then pairs, two pairs a round: every pixel once. |
| BlitRows.PairRounds | source/EARasterBlit.cpp:282-287 | The unrolled part over pairs handles every pair once, with the two-pixel body. |
| BlitRows.StorePair | source/EARasterBlit.cpp:1262-1290 | The two-pixel body leaves two neighbouring pixels each with the one-pixel function. |
| BlitRows.BlitRow | source/EARasterBlit.cpp:1005-1604 | Whatever loop a kernel uses, a row of it applies the pixel function to each pixel once. |
| BlitRows.BlitBlock | source/EARasterBlit.cpp:1005-1604 | The loop over rows with its skips applies the pixel function to exactly the pixels of the block. |
| Words.ShiftValues | source/EARasterBlit.cpp:1187-1604 | Shifts by bytes are division and wrapping multiplication of the unsigned value. |
| Words.ValueFrom | source/EARasterBlit.cpp:1187-1604 | Unsigned 32-bit results wrap modulo 2^32, negative differences included. |
| Words.OrHasBits | source/EARasterBlit.cpp:359-365 | Or-ing has the bits of both operands. |
| PixelFormats.ArgbLayouts | source/EARaster.cpp:121-188 | Exactly ARGB and XRGB have the channel positions the fast kernels assume. |
| PixelFormats.FromArgbPixel | source/EARasterBlit.cpp:368-374 | Taking a pixel apart gives its four lanes, and alpha 0 without an alpha mask. |
| PixelFormats.ToArgbPixel | source/EARasterBlit.cpp:359-365 | Putting a pixel together ors whatever a channel has above its lane into the lanes above. |
| Kernels.SelectionOnArgb | source/EARasterBlit.cpp:847-1000 | Which kernel any two surfaces of the formats ARGB and XRGB get, for every combination of flags. |
| Kernels.EqualFormatsCopy | source/EARasterBlit.cpp:861-870 | Whatever kernel is selected for equal 32-bit formats without blending: the pixel becomes the source pixel. |
| Kernels.OtherFormatsConvert | source/EARasterBlit.cpp:977-995 | Whatever kernel is selected for different 32-bit formats without blending: the colours of the source; the alpha of the destination format or-ed with the unused byte when both have the same order, the alpha of the source otherwise, so 0 from a source without one. |
| Kernels.PixelsBlend | source/EARasterBlit.cpp:925-973 | Whatever kernel is selected for a source with alpha: the transparent, empty-destination, opaque and blended cases between any two 32-bit formats. |
| Kernels.SurfacesBlend | source/EARasterBlit.cpp:871-923 | Whatever kernel is selected for a source with surface alpha only: every colour blended, a destination with alpha opaque, and where surface alpha 0 writes nothing. |
| Blend.Lerp | source/EARasterBlit.cpp:322-327 | A blended channel lies between its two inputs. |
| Blend.LerpFormula | source/EARasterBlit.cpp:1253-1259 | A blended channel is d + floor((s - d) * alpha / 256). |
| Blend.AddBlend | source/EARasterBlit.cpp:331-340 | An added channel lies between the source and the sum, saturating. |
| Blend.AddBlendFormula | source/EARasterBlit.cpp:331-340 | An added channel is s + floor(d * (255 - alpha) / 256), cut off at 255. |
| Blend.BlendTwoLanes | source/EARasterBlit.cpp:1253-1255 | Two channels 16 bits apart share one wrapping multiplication without a borrow between them. |
| Blend.BlendGreenLane | source/EARasterBlit.cpp:1256-1259 | The green channel alone, in its own lane, likewise. |
| Blend.BlendBottomLane | source/EARasterBlit.cpp:322-327 | A channel in the lowest lane: one that has to go down leaves 2^24 above it and nothing else. |
| Kernels.FastSurfaceAlphaMeaning | source/EARasterBlit.cpp:1187-1296 | The surface-alpha pixel: red, green and blue each blended on their own for every alpha, alpha byte 255. |
| Kernels.TwoPixelsAreTwiceOne | source/EARasterBlit.cpp:1262-1289 | The two-pixel body, with both greens in one word, does to each pixel what the one-pixel body does. |
| Kernels.FastPixelAlphaMeaning | source/EARasterBlit.cpp:1300-1420 | The pixel-alpha kernel in both modes: transparent, empty destination, opaque and blended cases, channel by channel. |
| Kernels.GeneralSelected | source/EARasterBlit.cpp:847-1000 | Between 32-bit formats the general blending kernels are chosen exactly for surfaces that blend and are not both in ARGB order: the pixel-alpha one for RGBA sources and for ARGB onto RGBA or RGBX, the surface-alpha one for RGBX sources and for XRGB onto RGBA or RGBX. |
| Kernels.NtoNPixelAlphaMeaning | source/EARasterBlit.cpp:1503-1604 | The general pixel-alpha kernel from ARGB or RGBA to any 32-bit format: the transparent, empty-destination and blended cases, channel by channel; on an ARGB destination a blue channel that goes down sets the lowest alpha bit. |
| Kernels.NtoNSurfaceAlphaMeaning | source/EARasterBlit.cpp:1424-1500 | The general surface-alpha kernel from XRGB or RGBX to any 32-bit format: every colour blended on its own, a destination with alpha opaque, nothing written at surface alpha 0. |
| Kernels.FastRefinesGeneral | source/EARasterBlit.cpp:1300-1604 | Fast against general pixel alpha on ARGB: identical in additive mode; in normal mode equal colours below alpha 255 and one less in the general kernel for each rising channel at 255; the alphas agree if and only if blue does not go down or alpha is odd. |
| Kernels.SurfaceAlphaRefinesGeneral | source/EARasterBlit.cpp:1187-1500 | Fast against general surface alpha: equal colours; they part on the alpha byte and at surface alpha 0. |
| Kernels.GeneralBlendAndAlpha | source/EARasterBlit.cpp:1563-1604 | Where the general pixel-alpha kernel is selected and blends, the destination alpha stays as it is if and only if the blend is additive, the destination is not ARGB, blue does not go down, or the alpha is odd. |
| Kernels.GeneralWithoutAlphaCopies | source/EARasterBlit.cpp:1503-1604 | Where it is selected for a destination without an alpha channel it never blends: the colours are those of the source, or untouched under a transparent one. |
| Kernels.ConversionKeepsChannels | source/EARasterBlit.cpp:1058-1126 | Between any two 32-bit formats every colour channel is carried over; which alpha is written. |
| Kernels.ConversionRoundTrip | source/EARasterBlit.cpp:1058-1090 | Converting to another 32-bit format and back gives the colours back. |
| Kernels.MaskAlphaMeaning | source/EARasterBlit.cpp:1005-1054 | Equal colour masks: colours stay, the alpha is set or cleared. |
| Refinement.PixelAlphaBlitters | source/EARasterBlit.cpp:1300-1604 | Over whole rectangles: after a blit with the fast and with the general pixel-alpha kernel every pixel agrees in the sense above, and every other pixel is the same. |
| Refinement.SurfaceAlphaBlitters | source/EARasterBlit.cpp:1187-1500 | The same for the surface-alpha kernels. |
| OverlapCopy.RevCpy | source/EARasterBlit.cpp:135-144 | Copying bytes backwards is right whenever the target does not lie before the source. |
| OverlapCopy.MemMove | source/EARasterBlit.cpp:1158-1166 | A byte range arrives as it was before the call, however the ranges overlap. |
| OverlapCopy.BlitCopyOverlap | source/EARasterBlit.cpp:1149-1183 | Every row arrives as it was before the call, in whichever order the rows are copied, and nothing else changes. |
| OverlapCopy.CopyWithin | source/EARasterBlit.cpp:1149-1183 | For two rectangles of equal size in one surface: each destination byte equals the source byte of the surface before the call, whichever way they overlap; nothing else changes. |
| OverlapCopy.MovedUp | source/EARasterBlit.cpp:1158-1167 | Rows copied from the top are not yet overwritten when the target starts first. |
| OverlapCopy.MovedDown | source/EARasterBlit.cpp:1168-1182 | Rows copied from the bottom are not yet overwritten when the target starts last. |
| Tiling.BlitTiled | source/EARasterBlit.cpp:531-579 | Pixels of the destination rectangle under a stamped tile get the source pixel of their phase, each once; no other pixel changes. |
| Tiling.GridOf | source/EARasterBlit.cpp:531-560 | The grid is the source rectangle or the whole source over the destination rectangle or the whole destination, at the two offsets. |
| Tiling.PatternPhase | source/EARasterBlit.cpp:561-574 | The source column of a destination column is (X - dest - offset) modulo the tile width, for all offsets. |
| Tiling.CoversAxis | source/EARasterBlit.cpp:569-572 | An axis is covered completely if and only if it is empty, the offset is 0 or the tile size, or the remainder of the extent is above 0 and at most the offset. |
| Tiling.CoversRectangle | source/EARasterBlit.cpp:561-574 | The tiles reach every pixel of a destination rectangle if and only if both axes are covered. |
| Tiling.EveryPixelTiled | source/EARasterBlit.cpp:531-579 | After BlitTiled with offsets that cover both axes, zero offsets among them, every pixel of the destination rectangle inside the clip rectangle is the pixel function of the source pixel of its phase. |
| Tiling.ShiftedTileLeavesGap | source/EARasterBlit.cpp:569-572 | Counterexample: a shifted pattern that leaves the last column out. |
| Drawing.SetPixel | source/EARasterPrimitives.cpp:323-424 | Only a pixel of the surface is drawn; nothing else changes. |
| Drawing.SetPixelNoClip | source/EARasterPrimitives.cpp:381-520 | The one pixel is painted once. |
| Drawing.MixIsBetween | source/EARasterPrimitives.cpp:730-738 | A channel of a translucent fill is the mean weighted by alpha and 255 - alpha over 256: between the two colours, or one below both. |
| Pixels.FillPaintMeaning | source/EARasterPrimitives.cpp:700-745 | What a filled pixel is, channel by channel: the colour itself when opaque or over an empty pixel, else the weighted mean under the alpha that was there. |
| Drawing.FillRectColor | source/EARasterPrimitives.cpp:602-750 | Exactly the pixels of the rectangle inside the clip rectangle are painted, once each. |
| Drawing.HLineSolidColor | source/EARasterPrimitives.cpp:1122-1196 | Exactly the pixels between the end points, in either order, inside the clip rectangle. |
| Drawing.HLineColor | source/EARasterPrimitives.cpp:1207-1215 | A span the wrong way round is drawn only in an opaque colour. |
| Drawing.DrawSpans | source/EARasterPrimitives.cpp:1207-1215 | Spans without common pixels paint each pixel once, translucent colours included. |
| Drawing.DrawPoints | source/EARasterPrimitives.cpp:418-424 | Different points are each painted once. |
| Drawing.RepeatSolid | source/EARasterPrimitives.cpp:323-357 | Painting again with an opaque colour changes nothing. |
| Pixels.MultiplyPixelMeaning | source/EARasterPrimitives.cpp:486-502 | The translucent pixel code multiplies every channel exactly: floor(s * d / 255), with no carry between channels although red and green are multiplied in place. |
| Pixels.PixelPaintMeaning | source/EARasterPrimitives.cpp:427-520 | What a drawn pixel is on any 32-bit format, channel by channel: multiplied on ARGB under a translucent colour, else the colour itself. |
| Pixels.DivideBy255 | source/EARasterPrimitives.cpp:489-490 | The division by 255 with two shifts is exact. |
| Pixels.Multiplied | source/EARasterPrimitives.cpp:489-502 | A multiplied channel is at most either factor, and 255 is neutral. |
| Circle.OctantIsNearest | source/EARasterPrimitives.cpp:1837-1852 | The octant test means: b is the row nearest to the true circle. |
| Circle.OctantIsUnique | source/EARasterPrimitives.cpp:1837-1852 | One row for each column. |
| Circle.EightfoldSymmetry | source/EARasterPrimitives.cpp:1738-1835 | The circle is closed under all eight reflections. |
| Circle.NextColumn | source/EARasterPrimitives.cpp:1837-1851 | df = (cx+1)^2 + cy^2 - cy - r^2 and -cy <= cx^2 + cy^2 - r^2 < cy are kept by both branches of the step. |
| Circle.CirclePoints | source/EARasterPrimitives.cpp:1734-1853 | For every radius above 4 the loop ends, and the points it plots are exactly the pixels of the midpoint circle, each once. |
| Circle.CircleColor | source/EARasterPrimitives.cpp:1688-1856 | Radii above 4: every circle pixel on the surface is painted exactly once, nothing else. Radii up to 4: the pixels of the tables, as often as they come. The ways in which nothing is drawn. |
| Circle.OutlineKeepsToBox | source/EARasterPrimitives.cpp:1734-1853 | All pixels of the circle lie in a rectangle if and only if its bounding box does. |
| Circle.OutcomeMeaning | source/EARasterPrimitives.cpp:1700-1732 | A circle above radius 4 is drawn if and only if its bounding box meets the clip rectangle, one up to 4 if the clip rectangle is not empty; one that is out of sight has no pixel in it. |
| Circle.OutlineIgnoresClip | source/EARasterPrimitives.cpp:1712-1732 | For a circle that lies on the surface: pixels outside the clip rectangle stay untouched if and only if the clip rectangle has the whole bounding box. |
| Circle.ClippedPixelIsDrawn | source/EARasterPrimitives.cpp:1712-1732 | Counterexample to clipping: a circle that only touches the clip rectangle is drawn outside it. |
| TinyCircle.MicroCircle | source/EARasterPrimitives.cpp:1525-1601 | The tables for radii 0 to 4: which pixels around the given one are drawn, each once, except one corner of radius 2, which comes twice. |
| TinyCircle.TinyShape | source/EARasterPrimitives.cpp:1525-1601 | The tables are symmetric about the diagonal, reach from 1 - radius to radius, and are symmetric about their middle except for radius 2. |
| TinyCircle.FilledMicroCircle | source/EARasterPrimitives.cpp:1604-1686 | The filled tables: rows inside the clip rectangle with the paint of fills, then single pixels of the surface with the paint of pixels, each once. |
| FilledCircle.HalfWidthIsUnique | source/EARasterPrimitives.cpp:2280-2318 | A row of the filled circle has one width. |
| FilledCircle.CircleSpans | source/EARasterPrimitives.cpp:2277-2336 | For every radius above 4 each of the 2r+1 rows is drawn exactly once, as one span symmetric about the centre whose ends lie on the midpoint circle. |
| FilledCircle.FilledCircleColor | source/EARasterPrimitives.cpp:2230-2339 | Radii above 4: every pixel of the disc inside the clip rectangle is painted exactly once, so translucent colours blend once. Radii up to 4: the two steps of the tables. |
| FilledCircle.OutOfSightHasNoDisc | source/EARasterPrimitives.cpp:2252-2277 | A filled circle that is out of sight has no pixel in the clip rectangle. |
| FilledCircle.RowEndsOnOutline | source/EARasterPrimitives.cpp:2282-2318 | Both ends of every row are pixels of the outline. |
| FilledCircle.OutlineReachesOutOfDisc | source/EARasterPrimitives.cpp:2287-2300 | For every centre and every radius above 2 the pixel beside the top one is in the outline and not in the fill. |
| FilledCircle.FillCoversOutline | source/EARasterPrimitives.cpp:2230-2339 | The fill covers the outline of the same circle if and only if the radius is 0, 1, 3 or 4. |
| LineClipping.ClipLine | source/EARasterPrimitives.cpp:865-941 | The loop is the round-by-round function ClipRun, for any values of the floating-point slides. |
| LineClipping.RejectedIsOutside | source/EARasterPrimitives.cpp:829-887 | A line is rejected if and only if no pixel of its bounding box lies in the clip rectangle. |
| LineClipping.AcceptedEndsAreVisible | source/EARasterPrimitives.cpp:881-888 | Whatever the slides, an accepted line has both ends in the clip rectangle. |
| LineClipping.SteadyRunEnds | source/EARasterPrimitives.cpp:879-938 | If no slide overshoots the other end, the loop ends within four rounds and the rest lies in the bounding box of the line. |
| LineClipping.SlideIsSteady | source/EARasterPrimitives.cpp:908-936 | The truncated slide along an edge, with exact slopes, never overshoots. |
| LineClipping.ExactClippingEnds | source/EARasterPrimitives.cpp:865-941 | With exact slopes every line is accepted or rejected within four rounds, and an accepted one is visible and in the bounding box. |
| LineClipping.CutIsNearLine | source/EARasterPrimitives.cpp:903-937 | With the exact slope every cut moves an end to within a pixel of the line. |
| LineClipping.AxisLineIsClipped | source/EARasterPrimitives.cpp:862-944 | With exact slopes a line along an axis is accepted if and only if it has a pixel in the clip rectangle, and what is accepted are all its pixels there. |
| LineDrawing.RuleGivesWalk | source/EARasterPrimitives.cpp:980-1106 | Any offset rule that starts at 0, ends at the shorter distance and never takes two steps at once gives a walk: max(|dx|,|dy|)+1 pixels from end to end, each touching the last, in the bounding box, all different. |
| LineDrawing.LinesAreWalks | source/EARasterPrimitives.cpp:980-1106 | Both branches of LineColor draw such a walk. |
| LineDrawing.OpaqueRuleIsRule | source/EARasterPrimitives.cpp:988-1052 | The run-length rule floor(k * (short+1) / (long+1)) starts and ends at the ends. |
| LineDrawing.OpaqueIsWithinOne | source/EARasterPrimitives.cpp:988-1052 | Every pixel of an opaque line is less than one pixel away from the line. |
| LineDrawing.DrawOpaque | source/EARasterPrimitives.cpp:986-1052 | The pointer loop with its accumulator paints exactly the pixels of the run-length rule, each once. |
| LineDrawing.NearestIsWithinHalf | source/EARasterPrimitives.cpp:1069-1104 | The blended branch stays within half a pixel of the ideal line; which way ties go. |
| LineDrawing.NearestIsUnique | source/EARasterPrimitives.cpp:1069-1104 | Only one pixel is that near. |
| LineDrawing.DecideNext | source/EARasterPrimitives.cpp:1077-1084 | The decision variable d = 2(k+1)short - long - 2j*long picks the nearest pixel of the next step. |
| LineDrawing.DrawWide | source/EARasterPrimitives.cpp:1069-1086 | The loop for wide lines paints exactly the nearest pixels, each once. |
| LineDrawing.DrawSteep | source/EARasterPrimitives.cpp:1087-1106 | The loop for the other lines likewise. |
| LineDrawing.BlendedLineIsReversible | source/EARasterPrimitives.cpp:1063-1106 | A blended line is the same set of pixels drawn from either end. |
| LineDrawing.OpaqueLineIsReversible | source/EARasterPrimitives.cpp:988-1052 | An opaque line is the same set of pixels from either end if and only if its length in pixels is a multiple of its width in pixels across. |
| LineDrawing.OpaqueLineHasDirection | source/EARasterPrimitives.cpp:1040-1050 | Counterexample: the line from (0, 0) to (2, 1) and back. |
| LineDrawing.VLineSolidColor | source/EARasterPrimitives.cpp:1227-1302 | Exactly the pixels between the end points, in either order, inside the clip rectangle. |
| LineDrawing.VLineColor | source/EARasterPrimitives.cpp:1315-1323 | End points the wrong way round are drawn only in an opaque colour. |
| LineDrawing.LineColor | source/EARasterPrimitives.cpp:946-1110 | What ClipLine leaves is drawn, each pixel once, with the paint of its branch; opaque diagonal lines are drawn on ARGB only. |
| WuLine.Accumulate | source/EARasterPrimitives.cpp:1440-1448 | One wrapping addition: the accumulator gets no larger exactly when the line moves over, so (minor steps) * 2^32 + erracc = k * erradj. |
| WuLine.MinorStaysInside | source/EARasterPrimitives.cpp:1433-1459 | Before the end both pixels of a step lie between the ends. |
| WuLine.WeightsAreAccurate | source/EARasterPrimitives.cpp:1433-1458 | The weights place the line between its two pixels, at most one and k/256 parts of 256 (plus one) too low. |
| WuLine.PairIsWeighted | source/EARasterPrimitives.cpp:1334-1343 | Each of the two pixels keeps the colour channels, and its share of the alpha measures how near it is to the line: the nearer, the more, up to the error of the accumulator. |
| WuLine.EveryStepIsDrawn | source/EARasterPrimitives.cpp:1423-1501 | Every step between the ends has its two pixels, the ends have the colour itself, and there are no other pixels. |
| WuLine.WuDotsAreInside | source/EARasterPrimitives.cpp:1423-1501 | Every pixel of the line lies in the bounding box of the clipped ends, and none is drawn twice. |
| WuLine.DrawSteeply | source/EARasterPrimitives.cpp:1426-1460 | The loop for steep lines draws those pixels with weights w and 255 - w. |
| WuLine.DrawWidely | source/EARasterPrimitives.cpp:1461-1495 | The loop for wide lines likewise. |
| WuLine.AALineColor | source/EARasterPrimitives.cpp:1358-1504 | The whole function for coordinates below 32768: clipping, straight and diagonal cases, smoothed case with or without the end point; nothing else changes. |
| WuLine.BackwardLineVanishes | source/EARasterPrimitives.cpp:1409-1412 | A straight line given backwards is drawn completely if and only if the colour is opaque, and otherwise not at all. |
| Orbit.SumHolds | source/EARasterPrimitives.cpp:2472-2475 | While the loop goes on ix + iy >= 64R, so iy > 32R and ix grows by 32 to 64 a round. |
| Orbit.LoopEnds | source/EARasterPrimitives.cpp:2472-2475 | The loop has at most 2R + 1 rounds. |
| Orbit.OnePixelAtATime | source/EARasterPrimitives.cpp:2422-2475 | From round to round each of the two pixel coordinates moves by one or not at all. |
| Orbit.RoundnessStep | source/EARasterPrimitives.cpp:2472-2473 | What truncation changes in R(ix^2 + iy^2) + ix*iy, exactly. |
| Orbit.StaysRound | source/EARasterPrimitives.cpp:2422-2475 | After n rounds that quantity is within n(128R^2 + 64R) of 4096R^3. |
| Orbit.RunStaysRound | source/EARasterPrimitives.cpp:2422-2475 | At every point of a run it is within 256R^3 + 128R^2 of 4096R^3: the recurrence follows the circle of radius 64R to about a sixteenth of the squared distance. |
| FilledEllipse.FrontsAdvance | source/EARasterPrimitives.cpp:2956-2986 | Rows from the outside and from the centre: each front advances by single rows, and they meet in the last round. |
| FilledEllipse.WideRows | source/EARasterPrimitives.cpp:2943-2992 | For ellipses wider than high each row is drawn exactly once, in the first round that comes to it, as a span symmetric about the centre. |
| FilledEllipse.TallRows | source/EARasterPrimitives.cpp:2993-3041 | For the other ellipses likewise. |
| FilledEllipse.AllRowsUnlessMarked | source/EARasterPrimitives.cpp:2943-3041 | All 2ry+1 rows are drawn if and only if ry is not 65535, the number that marks no row yet. |
| FilledEllipse.RowsNarrowOutward | source/EARasterPrimitives.cpp:2945-3041 | A row further from the centre is never wider. |
| FilledEllipse.RowsAreInBox | source/EARasterPrimitives.cpp:2945-3041 | Every row is symmetric about the centre and within the radius. |
| EllipseShape.RowEndIsNearEllipse | source/EARasterPrimitives.cpp:2891-3044 | Every row of a filled ellipse ends near the ellipse: its equation holds up to a sixteenth and terms of lower order. |
| FilledEllipse.OutcomeMeaning | source/EARasterPrimitives.cpp:2903-2940 | An ellipse is drawn if and only if its bounding box meets the clip rectangle, or a radius is zero and the clip rectangle is not empty. |
| FilledEllipse.OutOfSightHasNoRows | source/EARasterPrimitives.cpp:2919-2940 | An ellipse that is out of sight has no row in the clip rectangle. |
| FilledEllipse.FilledEllipseColor | source/EARasterPrimitives.cpp:2891-3044 | The pixels of the rows inside the clip rectangle are painted once each; a radius of zero gives a line. |
| EllipseOutline.WideOutline | source/EARasterPrimitives.cpp:2417-2476 | The outline of a wide ellipse: a pixel is drawn if and only if it is a pixel of a round of the recurrence, other than a round whose two rows are one row that the round before came to; every row has a pixel. |
| EllipseOutline.TallOutline | source/EARasterPrimitives.cpp:2477-2535 | The other outlines likewise, although their loop leaves more rounds out: their pixels have been drawn. |
| EllipseOutline.OutlineIsSymmetric | source/EARasterPrimitives.cpp:2417-2535 | The outline contains the mirror images of each of its pixels, both ways. |
| EllipseOutline.OutlineInBox | source/EARasterPrimitives.cpp:2417-2535 | The outline lies in its bounding box. |
| EllipseShape.PixelIsNearEllipse | source/EARasterPrimitives.cpp:2417-2535 | Every pixel of the outline is near the ellipse in the same sense. |
| EllipseShape.OrbitIsNearCircle | source/EARasterPrimitives.cpp:2424-2474 | In every round the two pixel coordinates are those of a point near the circle of the longer radius. |
| EllipseOutline.OutOfSightHasNoOutline | source/EARasterPrimitives.cpp:2381-2400 | An outline that is out of sight has no pixel in the clip rectangle. |
| EllipseOutline.TestedWhenCut | source/EARasterPrimitives.cpp:2402-2408 | The pixels are tested against the clip rectangle if and only if the bounding box does not lie in it; untested, all of them are in it. |
| Repaint.ClipTestIsWrong | source/EARasterPrimitives.cpp:361-374 | The clip test always lets a pixel outside pass, and lets all pixels inside pass if and only if the clip rectangle is at most one higher than wide. |
| Repaint.DrawRepeatedly | source/EARasterPrimitives.cpp:361-374 | Every pixel is painted as often as it occurs and passes the test. |
| EllipseOutline.EllipseColor | source/EARasterPrimitives.cpp:2352-2660 | The outline of an ellipse, or a line for a radius of zero, with the ways in which nothing is drawn; the top pixel of an ellipse is painted at least twice when it passes the clip test. |
| Sorting.InsertEntry | source/EARasterPrimitives.cpp:3424-3434 | An entry moves to its place in its chain; the chain is in order, nothing is lost, nothing behind n changes. |
| Sorting.GapPass | source/EARasterPrimitives.cpp:3422-3435 | After a pass all entries inc apart are in order. |
| Sorting.ShellSort | source/EARasterPrimitives.cpp:3409-3437 | Any buffer of any length comes out sorted and permuted; indices from nCount on are not touched. |
| Crossings.CrossesIsChangeOfSide | source/EARasterPrimitives.cpp:3543-3562 | An edge is crossed exactly when its ends are on different sides of the scan line, with the sides taken differently in the lowest row. |
| Crossings.RowsOfEdge | source/EARasterPrimitives.cpp:3543-3562 | An edge crosses the rows from its upper end to in front of its lower one, the lower one only in the lowest row of the polygon. |
| Crossings.CrossingsPairUp | source/EARasterPrimitives.cpp:3530-3564 | Any closed vertex list crosses any scan line an even number of times. |
| Crossings.CrossingsOf | source/EARasterPrimitives.cpp:3530-3564 | There are at most n crossings. |
| Crossings.PlaceIsBetween | source/EARasterPrimitives.cpp:3563-3563 | A crossing lies between the x coordinates of the ends of its edge, in 16:16. |
| Crossings.PlaceIsOnEdge | source/EARasterPrimitives.cpp:3563-3563 | A stored crossing is the place of the edge in its row up to the rounding of the quotient, towards the upper end. |
| Crossings.CrossingsFollowEdges | source/EARasterPrimitives.cpp:3530-3564 | For a pixel that is further than half a pixel and the rounding from every edge in its row, as many crossings are stored to its left as there are edges to its left. |
| Crossings.RoundedIsNearest | source/EARasterPrimitives.cpp:3584-3585 | The conversion from 16:16 rounds to nearest. |
| Crossings.EvenOdd | source/EARasterPrimitives.cpp:3580-3588 | Sorted crossings drawn in pairs: a pixel half a pixel away from every crossing is in one span if an odd number of crossings lies to its left, in none otherwise. |
| Crossings.CountPermuted | source/EARasterPrimitives.cpp:3577-3577 | Sorting does not change that number. |
| PolygonFill.Scratch.Reserve | source/EARasterPrimitives.cpp:3485-3508 | The recorded capacity never exceeds the real one; when it succeeds and what it records. |
| PolygonFill.RefusedGrowth | source/EARasterPrimitives.cpp:3485-3508 | After a refused growth a polygon can be drawn again if and only if it has more vertices than recorded. |
| PolygonFill.StoreCrossings | source/EARasterPrimitives.cpp:3530-3564 | The buffer holds the crossings of the scan line in the order of the edges. |
| PolygonFill.FillScanLine | source/EARasterPrimitives.cpp:3527-3588 | One row: stored, sorted, painted as often as its spans cover each pixel. |
| PolygonFill.FilledPolygonColor | source/EARasterPrimitives.cpp:3450-3592 | All rows from the lowest to the highest vertex are filled inside the clip rectangle; the ways in which nothing is drawn. |
| PolygonFill.PolygonIsEvenOdd | source/EARasterPrimitives.cpp:3525-3588 | The whole fill: in every row a pixel clear of the edges is painted once if an odd number of edges crosses to its left, and not at all otherwise. |
| PolygonFill.PolygonFollowsEdges | source/EARasterPrimitives.cpp:3525-3588 | In terms of the polygon alone: a pixel that far from its edges is painted once if an odd number of edges is to its left, and not at all otherwise. |
| PolygonFill.SpansStayInside | source/EARasterPrimitives.cpp:3582-3587 | Every span drawn ends inside the columns of the polygon. |
| Zoom.IncrementsAddUp | source/EARasterPrimitives.cpp:3755-3775 | The increments add up to floor(n * step / 65536) and leave its fraction, without accumulated error. |
| Zoom.Increments | source/EARasterPrimitives.cpp:3755-3775 | The loop that fills the table. |
| Zoom.SourceInside | source/EARasterPrimitives.cpp:3709-3720 | With steps that fit, every position read is inside the source. |
| Zoom.Between | source/EARasterPrimitives.cpp:3803-3805 | One interpolation lies between its two values. |
| Zoom.InterpolatedIsBetween | source/EARasterPrimitives.cpp:3799-3817 | Each channel lies between the least and the greatest of the four pixels. |
| Zoom.InterpolatedPixelIsMean | source/EARasterPrimitives.cpp:3799-3817 | Each channel of an interpolated pixel is the mean of that channel of the four pixels, weighted by the column and the row fraction, rounded down twice. |
| Zoom.SmoothPixelIsMean | source/EARasterPrimitives.cpp:3784-3838 | The same for every pixel the interpolating zoom leaves. |
| Zoom.Scale.ReadsInside | source/EARasterPrimitives.cpp:3784-3878 | Every read, of one pixel or of four neighbours, is on the source surface. |
| Zoom.SmoothNeedsRoom | source/EARasterPrimitives.cpp:3749-3793 | The interpolating loop reads inside if and only if there is no flip and the source has at least two columns and rows. |
| Zoom.SameSizeCopies | source/EARasterPrimitives.cpp:3841-3878 | At equal size the zoom copies, or mirrors. |
| Zoom.StepFits | source/EARasterPrimitives.cpp:3709-3720 | A step keeps all positions inside the source if and only if it is at most 65536 times the source size over the destination size, rounded down. |
| Zoom.ScaleFollowsRatio | source/EARasterPrimitives.cpp:3709-3775 | Destination position n reads at n times the ratio of the sizes, each axis its own, n / 65536 in front of it at most; the interpolating zoom counts the source as one smaller. |
| Zoom.QuotientIsExact | source/EARasterPrimitives.cpp:3709-3720 | The truncated floating-point quotient is that number, for every source below 2^24 columns or rows. |
| Zoom.ZoomSurface | source/EARasterPrimitives.cpp:3702-3879 | Every destination pixel is the source pixel at the floor of its position, mirrored when flipped, or the interpolation of the four pixels there; the steps are those quotients; nothing else changes. |
| Rotate.NormalizeTurns | source/EARasterPrimitives.cpp:3902-3906 | Any number of turns, negative ones included, taken modulo 4. |
| Rotate.TurningBack | source/EARasterPrimitives.cpp:3921-3968 | Each case is a bijection on pixel positions, undone by the remaining turns. |
| Rotate.Clockwise | source/EARasterPrimitives.cpp:3921-3968 | A quarter turn is clockwise: beside becomes below, below becomes left of, the upper left corner the upper right one. |
| Rotate.RotationsAdd | source/EARasterPrimitives.cpp:3892-3984 | Turning twice adds the turns. |
| Rotate.RotationIsUnique | source/EARasterPrimitives.cpp:3892-3984 | The number of turns determines the picture. |
| Rotate.FourTurnsRestore | source/EARasterPrimitives.cpp:3892-3984 | Four quarter turns restore every pixel. |
| Rotate.TurnsCombine | source/EARasterPrimitives.cpp:3892-3984 | One turn then three is the identity; one turn twice is the case of two turns. |
| Rotate.CopyTurned | source/EARasterPrimitives.cpp:3921-3968 | The pointer loops of the three cases copy every pixel to its turned place. |
| Rotate.RotateSurface90Degrees | source/EARasterPrimitives.cpp:3892-3984 | A turned surface of turned size; no surface, and the argument destroyed, if and only if the turns are divisible by 4. |
| HeaderMaps.HeaderMap.Insert | include/EAWebKit/internal/EAWebkitEASTLHelpers.h:76-90 | A pair goes behind all pairs that do not have a greater key. |
| HeaderMaps.InsertingKeepsAll | include/EAWebKit/internal/EAWebkitEASTLHelpers.h:76-90 | Nothing is lost by an insertion. |
| HeaderMaps.InsertedSplits | include/EAWebKit/internal/EAWebkitEASTLHelpers.h:76-90 | A pair goes behind the entries that are not greater and in front of the first that is; the others keep their places. |
| HeaderMaps.InsertedInOrder | include/EAWebKit/internal/EAWebkitEASTLHelpers.h:76-90 | An ordered map stays ordered. |
| HeaderMaps.RefilledIsSame | include/EAWebKit/internal/EAWebkitEASTLHelpers.h:76-90 | Handing the pairs of a map in order to an empty one gives the same map. |
| HeaderText.Print | source/EAWebKitTransport.cpp:397-446 | The text of the lines that fit, its length or -1, and the zero behind it; nothing beyond the capacity is touched. |
| HeaderText.LineFormat | source/EAWebKitTransport.cpp:422-433 | A printed line is the key, a colon, a blank, the value, a carriage return and a line feed. |
| HeaderText.AllFit | source/EAWebKitTransport.cpp:406-436 | Printing succeeds if and only if the map is empty or the text and two more characters fit. |
| HeaderText.CapacityAboveLength | include/EAWebKit/EAWebKitTransport.h:221-223 | The documented condition, a capacity above the length, is enough if and only if the map is empty or the capacity is not length + 1. |
| HeaderParser.SetHeaderMapFromText | source/EAWebKitTransport.cpp:454-593 | The loop, with its variables and its insertions, is the character-by-character function Parse, for any text. |
| HeaderParser.WriteHeaderMapEntry | source/EAWebKitTransport.cpp:44-57 | The pair without trailing blanks goes to the map if both parts are left. |
| HeaderParser.SkipStatusLine | source/EAWebKitTransport.cpp:482-493 | The status line and its line end are skipped. |
| HeaderRoundTrip.StatusLineIsSkipped | source/EAWebKitTransport.cpp:480-493 | For any text that begins with a status line and one line end, parsing with the line expected is parsing what is behind it without. |
| HeaderRoundTrip.RoundTripBehindStatus | source/EAWebKitTransport.cpp:397-593 | The round trip behind a status line: exactly the printed pairs, none from the line. |
| HeaderRoundTrip.RefusedAtOnce | source/EAWebKitTransport.cpp:495-499 | A text that starts with a blank or an empty line is refused as a whole. |
| HeaderParser.Advance | source/EAWebKitTransport.cpp:505-585 | The switch over the mode does one step of the machine. |
| HeaderParser.EatBlanks | source/EAWebKitTransport.cpp:560-562 | The loop that is to eat leading blanks never moves. |
| HeaderRoundTrip.RoundTrip | source/EAWebKitTransport.cpp:397-593 | Printed text parsed again gives exactly the pairs in their order and no error, and refills the map. |
| HeaderRoundTrip.PrintThenParse | source/EAWebKitTransport.cpp:397-593 | A map printed into a buffer and parsed from it gives an equal map and no error, if and only if the text and two more characters fit. |
| HeaderRoundTrip.RunRestOfLine | source/EAWebKitTransport.cpp:422-433 | A printed line takes the machine from its first character to a finished pair, of which it keeps what there is room for. |
| HeaderRoundTrip.OverlongPairIsDropped | source/EAWebKitTransport.cpp:507-555 | A pair comes back from its line if and only if its key is shorter than 128 and its value than 2048 characters; otherwise it is dropped, not cut off. |
| HeaderRoundTrip.SeparatorIsSkipped | source/EAWebKitTransport.cpp:524-540 | Between key and value any blanks and colons are skipped, and one colon among them is enough. |
| HeaderRoundTrip.TrimmedIsClean | source/EAWebKitTransport.cpp:44-57 | Trimming takes all blanks off the end and nothing else. |
| HeaderRoundTrip.SignIsKept | source/EAWebKitTransport.cpp:518-521 | A character of a key keeps its sign when it is widened. |
| HeaderRoundTrip.FirstCharacterDiffers | source/EAWebKitTransport.cpp:577-579 | The first character of a later line does not: beyond 127 it gives another key than in the first line. |
| HeaderRoundTrip.RunNextLine | source/EAWebKitTransport.cpp:565-579 | The first character of the next line hands the finished pair on. |
| HeaderRoundTrip.ParsedPairsAreClean | source/EAWebKitTransport.cpp:454-593 | Whatever the text, pairs handed to the map have a key below 128 and a value below 2048 characters, without line ends, zeros or trailing blanks, and no blanks in the key. |
| HeaderRoundTrip.KeyWithoutSeparatorFails | source/EAWebKitTransport.cpp:507-512 | A line that ends inside its key is an error that stays, and hands nothing on. |
| HeaderRoundTrip.PairIsHandedOn | source/EAWebKitTransport.cpp:567-571 | A finished pair reaches the map if and only if neither part overflowed and both have a character that is not blank. |
| HeaderRoundTrip.ContinuationKeepsBlanks | source/EAWebKitTransport.cpp:556-563 | A continuation line adds everything behind its first blank, further blanks included. |
| HeaderRoundTrip.MissingColonOnLastLine | source/EAWebKitTransport.cpp:526-579 | A line that ends without a colon is reported if and only if a line begins somewhere behind it; continuations and empty lines do not report it, and its pair is dropped. |
| HeaderRoundTrip.MissingColonInText | source/EAWebKitTransport.cpp:454-593 | For a whole text that starts with a key, a blank and a line end: an error if and only if the rest has a line. |
| Clipboard.Data.AddRef | source/EAWebKitClipboard.cpp:173-176 | One reference more. |
| Clipboard.Data.Release | source/EAWebKitClipboard.cpp:179-185 | One reference less; the object goes with the last. |
| Clipboard.RemovedKeepsOthers | source/EAWebKitClipboard.cpp:649-693 | Removing a type removes its entry and no other, and keeps the map. |
| Clipboard.RemovedKeepsOrder | source/EAWebKitClipboard.cpp:680-685 | Entries that stay keep their order. |
| Clipboard.StoredIsUpdate | source/EAWebKitClipboard.cpp:578-612 | Storing puts the new entry last; every entry of another type stays, except the oldest of a full table. |
| Clipboard.StoredKeepsOrder | source/EAWebKitClipboard.cpp:578-612 | The entries in front of the new one keep their order. |
| Clipboard.Table.CloseGap | source/EAWebKitClipboard.cpp:680-685 | Shifting closes the gap and keeps the order. |
| Clipboard.Table.ClearAll | source/EAWebKitClipboard.cpp:657-666 | All entries go, each released once. |
| Clipboard.Table.Clear | source/EAWebKitClipboard.cpp:649-693 | The table refines the removal from the map; counts stay right; the number of entries removed. |
| Clipboard.Table.StoreNewest | source/EAWebKitClipboard.cpp:594-612 | The new entry is stored; the table stays a map if and only if the type is not the mark of an empty slot and the evicted entry, if any, does not have the type that means all. |
| Clipboard.Table.SetClipboardData | source/EAWebKitClipboard.cpp:578-642 | The table refines the update of a bounded map ordered by age, and every reference count equals outside references plus slots. |
| Clipboard.Table.GetClipboardData | source/EAWebKitClipboard.cpp:525-547 | The data of a type if it is in the table, with one more reference for the caller. |
| Clipboard.Table.GetDataTypes | source/EAWebKitClipboard.cpp:504-519 | The types from the oldest on, as many as there is room for. |
| Clipboard.DropReference | source/EAWebKitClipboard.cpp:179-185 | An object goes exactly when its last outside reference goes and no slot holds it. |
| Clipboard.TakeReference | source/EAWebKitClipboard.cpp:173-176 | Counts stay right when somebody outside takes a reference. |

## Left out

- BlitNoClip: takes both rectangles, because Blit always passes them; a missing source and destination rectangle of different sizes is undefined in the source. It also takes two different surfaces: blits inside one surface are modelled for the copying kernel only, byte by byte (OverlapCopy), because the other kernels read pixels that the same loop has already changed.
- Blit: the cached kernel of a surface may be out of date after a format change; the model runs the cached kernel as the source does and says nothing about when it is right.
- BlitTiled: offsets outside 0 to the tile size, which the source asserts against, and tiles without size, for which its loops do not end.
- FillRectColor: the branch for 3-byte pixels. The RGB format with 3 bytes a pixel appears in format selection only; surfaces hold 32-bit pixels.
- ClipLine: with arbitrary floating-point slides the loop need not end, so the function runs on a finite sequence of slides and can report that it is still running; termination is proved for slides that do not overshoot, which exact slopes give.
- AALineColor: surfaces of more than 32768 columns or rows, where the shift of a difference by 16 overflows.
- EllipseColor: how often pixels other than the top one are repeated is not stated.
- EllipseShape.PixelIsNearEllipse: the bound is a sixteenth of the equation of the ellipse, the worst that truncation in every round could add up to; nearness within a pixel is not stated.
- FilledPolygonColor: the contents of the scratch buffer across a reallocation, which are overwritten before they are read; the global and the caller's cache are one parameter.
- ZoomSurface: sources without columns or rows, and destinations without them, for which the quotient of the source is not a number it can truncate; sources of 2^24 columns or more, whose size the source rounds first. The interpolating zoom takes no flips and sources of at least two columns and rows, because the source reads outside otherwise (Zoom.SmoothNeedsRoom).
- RotateSurface90Degrees: destroying the argument is a result of the method, not an effect on it. Failed allocations are not modelled.
- Print: text as a sequence of pairs in map order; the map iterator is not part of this model.
- SetHeaderMapFromText: bytes are signed when a key character is widened, as on the platforms with signed char; the first character of a later line is widened unsigned, as in the source. The text has to be readable where the parser looks at it, which is up to three characters behind its size.
- HeaderMap: the string comparison of keys is a parameter; the string and map classes of the EASTL library are not part of this model.
- SetClipboardData: reference counts after the table has fallen into disorder are not stated. The mutex and the exchange with the Win32 clipboard are not modelled.
- Integer overflow of coordinates, radii and sizes outside the pixel words: the source uses 32-bit int.
- The processor-specific blitters (MMX, 3DNow, Altivec), CPU detection and progress callbacks.
- BlitEdgeTiled: the widths it passes do not partition the destination rectangle.
- Floating-point and trigonometric drawing: AAEllipseColor, ArcColor, PieColorInternal.
- Forwarding overloads that build a colour, triangles and outlines of polygons and rectangles: they only call the functions above.
- FillRectSolidColor, ShrinkSurfaceRGBA and Surface::Resize.
- SetHeaderMapValue, GetHeaderMapValue and EraseHeaderMapValue, and GetClipboardDataData: single lookups.
