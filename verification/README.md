# spxx software rasterizer, modelled in Dafny

This project models the drawing core of *spxx* (Simple PiXel eXtension), a C library
that draws shapes and text into a caller-owned RGBA pixel buffer:

- the scalar and vector helpers of `spxmath.h`, over exact reals (`SpxMath`);
- the `Px` pixel and the interpolation `pxLerp` (`Pixel`);
- the surface `Tex2D`, a row-major `width * height` array of pixels. It has the bounds-checked
  writers `pxPlot` and `pxBlend` and the unchecked `pxAt` write (`Surface`);
- the two integer Bresenham loops `pxPlotLine` and `pxPlotLine2` (`Lines`);
- the signed-area function `pxEdge`, the three-element sorts `pxSortTri*`, the flat
  and 9-sample triangle fills, and the texture lookup `pxTexMap` (`Triangles`);
- the rectangle fill and the flat and sub-sampled circle fills (`Shapes`);
- the glyph compositor of `spxx/spxfont.h`, with its overflow count, its text loop and its
  built-in 6×6 glyph table (`SpxFont`);
- the older compositor copy in `spxx.h` (`SpxxFont`).

Floats are modelled as reals. C's float-to-int cast is `SpxMath.Trunc`, which rounds toward
zero. Every drawing routine is a method on the surface, and each one states its result pixel
by pixel. For each on-surface pixel `(x, y)`, the new value is either the routine's value for
that pixel or the old one. Which of the two it is, is given by a coverage predicate (for
example `Triangles.TriCovers` or `Shapes.CircleCovers`). Each coverage predicate then has
lemmas that say which pixels it contains.

The line routines are not symmetric in their end points. From (0,0) to (2,1) `pxPlotLine`
passes through (1,1), but from (2,1) to (0,0) it passes through (1,0); `pxPlotLine2` does the
reverse (`Lines.LineNotSymmetric`, `Lines.Line2NotSymmetric`).

## Model

| member | source | states |
|---|---|---|
| SpxMath.AbsF | spxmath.h:97 | the magnitude is non-negative and is `n` or `-n` |
| SpxMath.SignF | spxmath.h:98 | the sign is 1 or -1 |
| SpxMath.SignTimesAbs | spxmath.h:97-98 | `signf(n) * absf(n) == n`; the sign is -1 exactly for negative `n`, so zero has sign 1 |
| SpxMath.MinF | spxmath.h:99 | the result is at most both arguments and is one of them |
| SpxMath.MaxF | spxmath.h:100 | the result is at least both arguments and is one of them |
| SpxMath.ClampF | spxmath.h:101 | on a non-empty range the result lies in `[lo, hi]`; a value already in range is kept |
| SpxMath.LerpEnds | spxmath.h:102 | `lerpf(a, b, 0) == a` and `lerpf(a, b, 1) == b` |
| SpxMath.LerpF | spxmath.h:102 | `lerpf`, `a + t * (b - a)`; its properties are stated by `SpxMath.LerpEnds` (a at 0, b at 1), `SpxMath.LerpBetween` (between a and b for t in [0,1]) and `SpxMath.ILerpInvertsLerp` |
| SpxMath.ILerpF | spxmath.h:104-105 | `ilerpf`; `SpxMath.ILerpInvertsLerp` states that it is 0 when `max == min` and otherwise inverts `lerpf` in both directions |
| SpxMath.RemapF | spxmath.h:106 | `remapf`, `lerpf` after `ilerpf`; `SpxMath.RemapEnds` states that it sends `min` to `a` and `max` to `b` when `max != min` |
| SpxMath.LerpBetween | spxmath.h:102 | for a weight in [0,1] the interpolant lies between the end points |
| SpxMath.ILerpInvertsLerp | spxmath.h:104-105 | `ilerpf` is 0 on an empty range; otherwise `lerpf` and `ilerpf` invert each other; `ilerpf(min, max, min) == 0` |
| SpxMath.RemapEnds | spxmath.h:106 | `remapf` sends `min` to `a` and `max` to `b` when `max != min` |
| SpxMath.Vec2Inverses | spxmath.h:112-115 | `vec2_sub` undoes `vec2_add`; `vec2_add` commutes; `vec2_div` undoes `vec2_mult` for `n != 0`; `vec2_div(p, 0)` is the zero vector |
| SpxMath.Vec2Add | spxmath.h:112 | componentwise sum; `SpxMath.Vec2Inverses` states that `vec2_sub` undoes it |
| SpxMath.Vec2Sub | spxmath.h:113 | componentwise difference; `SpxMath.Vec2Inverses` states that it undoes `vec2_add` |
| SpxMath.Vec2Mult | spxmath.h:114 | scaling by a factor; `SpxMath.Vec2Inverses` states that `vec2_div` by a non-zero factor undoes it |
| SpxMath.Vec2Div | spxmath.h:115 | scaling by the reciprocal, or by 0 for a zero divisor; `SpxMath.Vec2Inverses` states that it undoes `vec2_mult` and gives the zero vector for divisor 0 |
| SpxMath.CrossPerpendicular | spxmath.h:117 | `vec2_cross(p, q)` is perpendicular to `p - q` |
| SpxMath.Vec2Cross | spxmath.h:117 | `vec2_cross`, the difference turned a quarter; `SpxMath.CrossPerpendicular` states that it is perpendicular to `p - q` |
| SpxMath.Vec2LerpAlong | spxmath.h:118 | `vec2_lerp` is `a + (b - a) * t` component-wise, reaching `a` at 0 and `b` at 1 |
| SpxMath.Vec2Lerp | spxmath.h:118 | componentwise `lerpf`; `SpxMath.Vec2LerpAlong` states that it is `a + (b - a) * t`, reaching `a` at 0 and `b` at 1 |
| SpxMath.SqMagIsDot | spxmath.h:120-121 | the squared magnitude is the self dot product, non-negative, and zero only for the zero vector |
| SpxMath.Vec2Dot | spxmath.h:120 | the dot product; `SpxMath.SqMagIsDot` and `SpxMath.CrossPerpendicular` state its relation to the squared magnitude and the cross vector |
| SpxMath.Vec2SqMag | spxmath.h:121 | the squared magnitude; `SpxMath.SqMagIsDot` states that it is the self dot product, non-negative, and zero only at the origin |
| SpxMath.Trunc | spxmath.h:128 | the float-to-int cast is the integer part rounded toward zero; the contract fixes the result uniquely |
| SpxMath.IVec2RoundTrip | spxmath.h:127-128 | `vec2_to_ivec2(ivec2_to_vec2(p)) == p`; truncation never moves a coordinate away from zero |
| SpxMath.IVec2ToVec2 | spxmath.h:127 | the integer-to-float conversion; `SpxMath.IVec2RoundTrip` states that converting back gives the same vector |
| SpxMath.Vec2ToIVec2 | spxmath.h:128 | the truncating float-to-integer conversion; `SpxMath.IVec2RoundTrip` states that it inverts `ivec2_to_vec2` and never moves a coordinate away from zero |
| Pixel.LerpChannel | spxx.h:174-177 | a channel interpolated with a weight in [0,1] lies between the two channel values, so the `uint8_t` cast is defined |
| Pixel.PxLerp | spxx.h:171-179 | `pxLerp`, the truncated `lerpf` of each channel; `Pixel.LerpChannel` bounds each channel between the inputs, and `Pixel.PxLerpEnds` and `Pixel.PxLerpSame` state its ends and its fixed points |
| Pixel.PxLerpEnds | spxx.h:171-179 | `pxLerp` with weight 0 gives the old pixel and with weight 1 gives the colour |
| Pixel.PxLerpSame | spxx.h:171-179 | blending a pixel toward itself leaves it unchanged |
| Surface.IndexInBuffer | spxx.h:89 | the `pxAt` index `width * y + x` of an on-surface pixel lies in the buffer |
| Surface.IndexInjective | spxx.h:89 | distinct on-surface pixels have distinct `pxAt` indices |
| Surface.Tex2D.Inside | spxx.h:90-91 | `pxInside`; `Surface.IndexInBuffer` and `Surface.IndexInjective` state that inside pixels have distinct indices in the buffer |
| Surface.Tex2D.At | spxx.h:89 | the `pxAt` read; `Surface.Tex2D.Put` and `Surface.Tex2D.Plot` state how a write changes it at that pixel only |
| Surface.AbsI | spxx.h:55 | `pxAbs` is non-negative and is `n` or `-n` |
| Surface.MaxI | spxx.h:56 | `pxMax` is at least both arguments and is one of them |
| Surface.MinI | spxx.h:57 | `pxMin` is at most both arguments and is one of them |
| Surface.ClampI | spxx.h:59 | `pxClamp` lies in a non-empty range and keeps in-range values; below the range it gives `lo`; on an empty range it gives `hi` for every `n >= lo` |
| Surface.ClampR | spxx.h:564-567 | `pxClamp` of a float onto integer bounds lies in the range and keeps in-range values |
| Surface.Tex2D.Put | spxx.h:89 | the unchecked `pxAt` write of an on-surface pixel changes that pixel and no other |
| Surface.Tex2D.Plot | spxx.h:181-185 | `pxPlot` sets `(x, y)` to the colour exactly when it is on the surface; no other pixel changes, and an off-surface call changes nothing |
| Surface.Tex2D.FillRow | spxx.h:362-365 | a run of direct writes sets columns `lo..hi` of row `y` and nothing else |
| Surface.Tex2D.Blend | spxx.h:187-191 | `pxBlend` replaces only `(x, y)`, by `pxLerp(old, color, t)`; off the surface it changes nothing |
| Lines.MoveChoice | spxx.h:200-209 | before the end point, every loop iteration moves along x, along y, or both, and never past `q` on an axis already reached |
| Lines.ErrorAtEndOfX | spxx.h:202-205 | once every x step is taken, the doubled error is below `-dy`, so the x branch cannot fire again |
| Lines.ErrorAtEndOfY | spxx.h:206-209 | once every y step is taken, the doubled error is above `dx`, so the y branch cannot fire again |
| Lines.StepProgress | spxx.h:199-210 | each iteration keeps the cursor reachable, moves it by at most one toward `q` per axis, and strictly lowers the number of steps left, so the loop ends |
| Lines.Step | spxx.h:200-209 | one iteration of the loop of `pxPlotLine` or `pxPlotLine2`; `Lines.MoveChoice` and `Lines.StepProgress` state that it moves toward `q`, keeps the error invariant and shrinks the steps left |
| Lines.Trace | spxx.h:199-211 | the points plotted from a cursor form a non-empty run that starts at the cursor and ends at `q` |
| Lines.TraceMoves | spxx.h:199-210 | consecutive plotted points differ by one unit step toward `q` on each axis |
| Lines.TraceInBox | spxx.h:199-211 | every plotted point lies in the bounding box of `p` and `q` |
| Lines.TraceDecreasing | spxx.h:199-210 | the steps left strictly decrease along the run |
| Lines.LineShape | spxx.h:193-233 | both loops plot from `p` to `q` inclusive, by unit moves toward `q`, inside the bounding box, without repeating a point |
| Lines.HorizontalLine | spxx.h:193-233 | a horizontal line plots exactly the `|q.x - p.x| + 1` pixels between the end points |
| Lines.HorizontalStep | spxx.h:199-209 | on a horizontal line each iteration moves the cursor one pixel along x and leaves the error unchanged |
| Lines.HorizontalTrace | spxx.h:199-211 | on a horizontal line the points plotted from a cursor are the run of pixels from the cursor to `q` |
| Lines.LineZeroToFive | spxx.h:193-233 | with either loop, the line (0,0)–(5,0) plots exactly (0,0), (1,0), …, (5,0) |
| Lines.LineNotSymmetric | spxx.h:193-212 | `pxPlotLine` from (0,0) to (2,1) passes through (1,1), and in the reverse direction through (1,0) |
| Lines.Line2NotSymmetric | spxx.h:214-233 | `pxPlotLine2` from (0,0) to (2,1) passes through (1,0), and in the reverse direction through (1,1) |
| Lines.PlotLineStep | spxx.h:200-209 | one iteration of `pxPlotLine` plots the cursor and updates position and error as the `>=`/`<=` rule says |
| Lines.PlotLine | spxx.h:193-212 | `pxPlotLine` colours exactly the on-surface points of its point sequence and changes no other pixel |
| Lines.PlotLine2Step | spxx.h:221-230 | one iteration of `pxPlotLine2` plots the cursor and updates position and error as the `>`/`<` rule says |
| Lines.PlotLine2 | spxx.h:214-233 | `pxPlotLine2` colours exactly the on-surface points of its point sequence and changes no other pixel |
| Triangles.EdgeAntisymmetric | spxx.h:369-372 | `pxEdge(a, b, c) == -pxEdge(a, c, b)`; it is zero when `c == a` or `b == a` |
| Triangles.EdgeSum | spxx.h:369-372 | the three edge functions of a point sum to the triangle's own signed area |
| Triangles.Edge | spxx.h:369-372 | `pxEdge`; `Triangles.EdgeAntisymmetric` and `Triangles.EdgeSum` state its sign flip and the sum of the three edges |
| Triangles.SwapPermutes | spxx.h:58 | a compare-and-swap permutes the elements |
| Triangles.Sort3Sorts | spxx.h:374-382 | the three compare-and-swaps sort lexicographically by (y, x), permute the input, and leave sorted input unchanged |
| Triangles.CompareSwapOrders | spxx.h:376-381 | one compare-and-swap puts its two slots in order, either keeps or exchanges them, and leaves the third slot alone |
| Triangles.SortTri | spxx.h:374-382 | `pxSortTri` leaves the array equal to the sorted permutation of its old contents |
| Triangles.SortTriF | spxx.h:384-392 | the same for `pxSortTrif` on float vertices |
| Triangles.SortTriVert2D | spxx.h:394-402 | the same for `pxSortTriVert2D`, keyed on the vertex position |
| Triangles.CrossingBetween | spxx.h:421-424 | on a scanline within an edge's vertical extent, the edge's x crossing lies between the edge's end x coordinates |
| Triangles.Crossing | spxx.h:412-424 | the x crossing of scanline `y` with an edge; `Triangles.CrossingBetween`, `Triangles.VerticalCrossing` and `Triangles.DiagonalCrossing` state where it lies |
| Triangles.TriSpan | spxx.h:419-426 | the two crossings of a scanline in increasing order; `Triangles.TriFillInBoundingBox` and `Triangles.RightTriangleFill` state what the clamped spans fill |
| Triangles.VerticalCrossing | spxx.h:421-423 | a vertical edge crosses every scanline at its own column |
| Triangles.DiagonalCrossing | spxx.h:412-423 | the edge from (4,0) to (0,4) crosses scanline `y` at column `4 - y` |
| Triangles.PlotTri | spxx.h:404-433 | `pxPlotTri` colours exactly the pixels of the clamped scanline spans of the sorted triangle and changes no other pixel |
| Triangles.TriFillInBoundingBox | spxx.h:409-431 | every pixel `pxPlotTri` writes is on the surface and inside the triangle's bounding box |
| Triangles.RightTriangleFill | spxx.h:404-433 | the triangle (0,0), (4,0), (0,4) fills exactly the on-surface pixels with `x + y <= 4` |
| Triangles.SmoothSpan | spxx.h:465-466 | the clipped span of the smooth fill starts at or after column 0 and ends at or before the surface width |
| Triangles.SmoothSpanSkipsLastColumn | spxx.h:465-467 | as written, the exclusive span end never exceeds `width - 1`, so column `width - 1` is never visited |
| Triangles.SmoothSpanAsWritten | spxx.h:465-467 | the span of the smooth fill as written (as-written half of a Findings row); `Triangles.SmoothSpanSkipsLastColumn` and `Triangles.LastColumnExample` state that it never reaches column `width - 1` |
| Triangles.SmoothSpanReachesLastColumn | spxx.h:465-467 | the clipped span reaches the last column when the edge does, and equals the span as written when the edge's crossing is at most `width - 2` |
| Triangles.CountInside | spxx.h:470-475 | the number of sub-samples inside the triangle is at most the number taken |
| Triangles.Coverage | spxx.h:442 | the coverage `sum * ni` lies in [0,1] |
| Triangles.SampleSum | spxx.h:468-475 | the sample loop counts exactly the 9 sample points that pass all three edge tests |
| Triangles.CoverRow | spxx.h:467-477 | one scanline of `pxPlotTriSmooth` blends each span pixel by its coverage and changes nothing else |
| Triangles.PlotTriSmooth | spxx.h:435-479 | `pxPlotTriSmooth` blends exactly the pixels of the clipped spans, each by its 9-sample coverage, and changes no other pixel |
| Triangles.NoneInside | spxx.h:470-475 | for a clockwise triangle no sample passes all three edge tests |
| Triangles.WrongWindingInvisible | spxx.h:472-476 | a clockwise triangle has coverage 0 everywhere and leaves every pixel as it was |
| Triangles.AllInside | spxx.h:470-475 | when every sample is inside, the count equals the number of samples |
| Triangles.InteriorPixelSolid | spxx.h:470-476 | a pixel whose 9 samples are all inside gets coverage 1 and becomes the colour |
| Triangles.LastColumnExample | spxx.h:456-477 | on a 4×4 surface, pixel (3,1) of the triangle (0,0), (0,10), (10,0) is fully covered but lies outside the span as written |
| Triangles.ExampleSorted | spxx.h:376-381 | the vertices (0,0), (0,10), (10,0) sort to (0,0), (10,0), (0,10) |
| Triangles.SmoothVerticalCrossing | spxx.h:459-461 | in the smooth fill a vertical edge crosses every scanline at its own x |
| Triangles.ExampleDiagonalCrossing | spxx.h:459-461 | in the smooth fill the edge from (10,0) to (0,10) crosses scanline 1 at x = 9 |
| Triangles.TexCoordNegative | spxx.h:483-485 | as written, u = -0.5 on a 4-wide texture gives column -2 |
| Triangles.TexCoordAsWritten | spxx.h:483-485 | one texture coordinate as written (as-written half of a Findings row); `Triangles.TexCoordNegative` gives a negative column, and `Triangles.TexCoordWraps` states that the corrected coordinate equals it for `u >= 0` |
| Triangles.TexCoord | spxx.h:483-485 | the wrapped coordinate always lies in the texture |
| Triangles.TexCoordWraps | spxx.h:483-485 | the wrapped coordinate equals the one as written for non-negative `u`, and repeats with period 1 |
| Triangles.TexMap | spxx.h:481-486 | for non-negative `uv`, `pxTexMap` reads the texel at the truncated fractional coordinates |
| Shapes.RectOffSurfacePaintsBorder | spxx.h:357-361 | as written, the rectangle centred at (10,10) with half-size (1,1) covers pixel (3,3) of a 4×4 surface, which is outside the rectangle |
| Shapes.RectEmptySurfaceEscapes | spxx.h:357-364 | as written, on a 0×0 surface the box is the single pixel (-1,-1), so one write lands before the buffer |
| Shapes.RectBoxAsWritten | spxx.h:357-361 | the box `pxPlotRect` fills as written (as-written half of a Findings row); `Shapes.RectOffSurfacePaintsBorder`, `Shapes.RectEmptySurfaceEscapes` and `Shapes.RectBoxAgrees` state where it is wrong and where it agrees with `Shapes.RectBox` |
| Shapes.RectBox | spxx.h:357-361 | the clipped box (corrected half of a Findings row); `Shapes.RectBoxExact` states that it holds exactly the on-surface pixels of the rectangle |
| Shapes.RectBoxExact | spxx.h:355-367 | the clipped box holds exactly the on-surface pixels within `q` of `p` on both axes |
| Shapes.RectBoxAgrees | spxx.h:357-361 | the clipped box equals the clamped box as written whenever the rectangle overlaps a non-empty surface on both axes |
| Shapes.PlotRect | spxx.h:355-367 | the rectangle fill colours exactly the pixels of the clipped box and changes no other pixel |
| Shapes.CircleRow | spxx.h:571-575 | one scanline of `pxPlotCircle` colours the columns in its range whose centre lies in the disc, and nothing else |
| Shapes.PlotCircle | spxx.h:560-577 | `pxPlotCircle` colours exactly the pixels of its clamped box, from the column after the start, whose offset centre lies in the disc |
| Shapes.CircleFillIsDisc | spxx.h:564-575 | for a non-negative radius, an on-surface pixel is coloured exactly when it is in the disc and is not in column 0 |
| Shapes.CircleBox | spxx.h:564-567 | the clamped box `pxPlotCircle` scans; `Shapes.CircleFillIsDisc` and `Shapes.CircleExample` state which pixels the scan inside it paints |
| Shapes.CircleExample | spxx.h:560-577 | the circle at (10,10) with radius 5 covers its centre and not (10,16) |
| Shapes.CountColumn | spxx.h:596-599 | the inner sub-sample loop counts at most one per sample |
| Shapes.CountGrid | spxx.h:593-600 | the sub-sample count is at most `SPXE_SUBSAMPLES²` |
| Shapes.CircleCoverage | spxx.h:601 | the blend weight `count / SPXE_SUBSAMPLES²` lies in [0,1] |
| Shapes.CircleSamples | spxx.h:591-600 | the nested sub-sample loops compute exactly the recursive count |
| Shapes.SmoothCircleRow | spxx.h:590-603 | one scanline of `pxPlotCircleSmooth` blends each pixel of its range by its coverage, and nothing else |
| Shapes.PlotCircleSmooth | spxx.h:579-605 | `pxPlotCircleSmooth` blends exactly the on-surface pixels of its clamped box by their sub-sample coverage and changes no other pixel |
| Shapes.SmoothCoversDisc | spxx.h:589-602 | a pixel whose offset centre lies in the disc gets positive coverage |
| Shapes.SmoothCircleSolidCentre | spxx.h:589-602 | for radius at least 2 the centre pixel gets coverage 1 and becomes the colour |
| SpxFont.LerpU8 | spxx/spxfont.h:659-662 | for a weight in [0,1], `lerpu8` lies between its two arguments |
| SpxFont.LerpU8Ends | spxx/spxfont.h:659-662 | `lerpu8(a, b, 0) == a` and `lerpu8(a, b, 1) == b` |
| SpxFont.FontPlotIsPxLerp | spxx/spxfont.h:664-672 | `spxFontPlot`, applied channel by channel, is the surface's `pxLerp` |
| SpxFont.FontPlot | spxx/spxfont.h:664-672 | `spxFontPlot`; `SpxFont.FontPlotIsPxLerp` states that it equals `pxLerp`, and `SpxFont.GlyphAlphaEnds` its ends |
| SpxFont.GlyphIndexInRange | spxx/spxfont.h:684 | every bitmap index read lies in `[0, size.x * size.y)`; surface row `p.y` reads bitmap row `size.y - 1`, and the glyph's last surface row reads bitmap row 0 |
| SpxFont.Alpha | spxx/spxfont.h:685 | the blend weight `pixmap[index] / 255` lies in [0,1] |
| SpxFont.GlyphAlphaEnds | spxx/spxfont.h:685 | a 0 cell leaves its pixel unchanged and a 255 cell paints the colour |
| SpxFont.CountAboveClosed | spxx/spxfont.h:680-687 | the rows or columns counted past the last surface row or column are exactly those of `[max(start, limit + 1), end)` |
| SpxFont.GlyphOverflowZero | spxx/spxfont.h:676-689 | a non-empty glyph reports 0 exactly when its box lies on the surface; then every pixel it writes is on the surface |
| SpxFont.GlyphOverflow | spxx/spxfont.h:676-689 | the count `spxFontDrawGlyph` returns, in closed form; `SpxFont.GlyphOverflowZero` states that it is 0 exactly when the glyph box lies on the surface, and `SpxFont.DrawGlyph` that it is what the loop returns |
| SpxFont.GlyphRow | spxx/spxfont.h:682-687 | one glyph row blends each of its on-surface cells by its alpha and counts the cells right of the surface |
| SpxFont.DrawGlyph | spxx/spxfont.h:674-690 | `spxFontDrawGlyph` blends every on-surface pixel of the glyph's box by its alpha and returns `[p.y<0 or p.x<0]` + rows below the surface + cells right of it |
| SpxFont.DrawnFrom | spxx/spxfont.h:695-703 | the number of characters drawn never exceeds the text length |
| SpxFont.DrawnStopsAtFirstOverflow | spxx/spxfont.h:695-703 | every character before the last one drawn leaves the cursor short of the width; stopping early means the cursor has reached it and the extra 1 is added |
| SpxFont.TooWideReported | spxx/spxfont.h:699-702 | a non-empty text whose advance takes the cursor to the width or beyond adds exactly 1 to the result |
| SpxFont.DrawsAllWhenNoStop | spxx/spxfont.h:695-703 | when the cursor is short of the width before the last character, every character is drawn |
| SpxFont.AdvanceMonotone | spxx/spxfont.h:698 | the cursor never moves left |
| SpxFont.TextAdvance | spxx/spxfont.h:697 | the cursor offset after a prefix of the text; `SpxFont.AdvanceMonotone`, `SpxFont.TextStep` and `SpxFont.DefaultTextAdvance` state its growth per character |
| SpxFont.TextStep | spxx/spxfont.h:695-696 | each character moves the cursor on by its glyph's advance and adds that glyph's overflow count at the cursor the earlier characters left |
| SpxFont.TextPixelStep | spxx/spxfont.h:695-696 | after one more character, a pixel is the earlier text's pixel with that character's glyph blended over it at its cursor |
| SpxFont.DrawText | spxx/spxfont.h:692-705 | `spxFontDrawText` draws the characters up to the stop, each at the cursor the earlier ones left, and returns the sum of their overflow counts plus the stop flag |
| SpxFont.DefaultFont | spxx/spxfont.h:569 | the default font has 128 well-formed glyphs |
| SpxFont.DefaultGlyphShape | spxx/spxfont.h:490-492 | every listed default glyph is 6×6 with advance `6 << 6`, so it moves the cursor by 6; the other entries are empty |
| SpxFont.UppercaseIsLowercase | spxx/spxfont.h:493-521 | each uppercase default glyph uses `spxPixmaps[c + 32]` and equals its lowercase glyph |
| SpxFont.DefaultTextAdvance | spxx/spxfont.h:495-569 | a text of listed characters moves the default cursor by 6 per character |
| SpxxFont.FitsNoOverflow | spxx.h:656-666 | a non-empty glyph fits the surface exactly when the font library's copy would report no overflow for it |
| SpxxFont.GlyphRow | spxx.h:659-664 | one glyph row of `spxxFontDrawGlyph` blends each cell by its alpha through `pxLerp` |
| SpxxFont.DrawGlyph | spxx.h:656-666 | `spxxFontDrawGlyph` on a fitting glyph draws the same picture as `spxFontDrawGlyph` |
| SpxxFont.DrawText | spxx.h:668-675 | `spxxFontDrawText` draws every character, each at the cursor the earlier ones left, with no stop |

## Left out

- Engine start and stop, and FreeType font loading, sizing and freeing (spxx.h:146-169, spxx.h:607-654, spxx/spxfont.h:571-657). These are foreign-library calls and heap management.
- `randf`, `vec2_rand` and `vec4_rand` depend on `rand()`. `vec2_norm`, `vec2_mag`, `rad2vec2`, `vec2_to_rad`, `rad2deg`, `deg2rad` and `smootlerpf` are trigonometry and square roots with nothing structural to state.
- `pxPlotLineSmooth` and the Bézier routines (spxx.h:235-353) are not part of this model. Their loops accumulate float steps, and their termination and end points depend on IEEE rounding.
- `pxMapTri2D` (spxx.h:488-558) is not part of this model. Its span clipping repeats the one listed under Findings for `pxPlotTriSmooth`.
- IEEE-754 single-precision rounding: floats are exact reals throughout.
- Integer overflow of C `int` coordinates: integers are unbounded.
- The bitmap bytes of `spxPixmaps` are not transcribed. `SpxFont.DefaultFont` takes any table of 128 bitmaps of 36 bytes, and its lemmas hold for every such table.
- SpxFont.DrawGlyph, SpxFont.GlyphRow and SpxFont.DrawText: cells of a glyph box that lie off the surface are skipped. The source writes each cell at linear index `y * width + x`. For a cell past the right edge or before the left edge that index can still lie inside the buffer, and the glyph then wraps onto the next or the previous row. That write is defined, but this model drops it, and its ensures say those pixels keep their old value. Only writes beyond either end of the buffer are undefined. The returned count is modelled exactly.
- SpxFont.GlyphRow: skips the off-surface cells of its row, including those the source wraps onto a neighbouring row, as described for SpxFont.DrawGlyph.
- SpxxFont.DrawGlyph: requires the glyph box to lie on the surface, because the source writes every cell unchecked.
- SpxxFont.DrawText: requires every glyph to fit at its cursor, for the same reason.
- SpxFont.DrawText: text characters are restricted to codes 1 to 127. A `char` of 128 or more indexes the glyph table with a negative or out-of-range index in the source. It also skips the off-surface glyph cells that SpxFont.DrawGlyph skips.
- Shapes.PlotCircle: requires a non-empty surface. On a 0-wide or 0-high surface, a radius below -0.5 can make the source write column or row 0, outside the buffer. With a non-negative radius the source writes nothing on an empty surface. The model excludes that case too, although it is harmless, because its row loop would still visit row -1 or row 0 of the empty surface.
- Triangles.TexMap: requires a non-empty texture. Its result is tied to the source's texel only for non-negative coordinates; for negative ones it reads the wrapped texel (see Findings).
- `SPXE_SUBSAMPLES` (spxx.h:130-132) is a compile-time option the user may override. The model fixes it at its default of 2 (`Shapes.Subsamples`). The count and coverage bounds hold for that value, and so does Shapes.SmoothCircleSolidCentre, which is proved only for 2.
- Pixel.LerpChannel: requires a weight in [0,1], for the reason given under Surface.Tex2D.Blend. SpxFont.LerpU8 requires the same; its only caller, `spxFontDrawGlyph`, passes a bitmap byte over 255.
- Surface.Tex2D.Blend: requires a weight in [0,1], and so does Pixel.LerpChannel, under which Pixel.PxLerp is defined. Every caller in the modelled core passes a coverage in that range: `pxPlotTriSmooth` a sample fraction and `pxPlotCircleSmooth` a sub-sample fraction. Other weights are not modelled. In C some of them are defined, namely those whose truncated result still lies in [0,255]; the others make the float-to-`uint8_t` cast in `pxLerp` undefined.
- Shapes.PlotRect: draws the clipped box of the corrected rectangle (see Findings). The clamped box as written is `Shapes.RectBoxAsWritten`.
- Triangles.PlotTriSmooth: visits the corrected span that reaches the last column (see Findings). The span as written is `Triangles.SmoothSpanAsWritten`.

## Findings

| source | as written | input that shows it | evidently intended | confidence | as-written member | corrected member |
|---|---|---|---|---|---|---|
| spxx.h:357-361 | `pxPlotRect` clamps both corners of the box onto the surface | 4×4 surface, centre (10,10), half-size (1,1): both corners clamp to (3,3), which is painted although it is outside the rectangle | clip the box: start at `max(p - q, 0)`, end at `min(p + q, res)`, empty when they cross | high, not executed | Shapes.RectOffSurfacePaintsBorder | Shapes.RectBoxExact |
| spxx.h:357-364 | on a 0×0 surface `res` is (-1,-1), and the clamp yields it | 0×0 surface, centre (0,0), half-size (0,0): writes pixel (-1,-1), before the buffer | no write on an empty surface | high, not executed | Shapes.RectEmptySurfaceEscapes | Shapes.RectBoxExact |
| spxx.h:465-467 | `endx = min(x1 + 1, width - 1)` with `x < endx` | 4×4 surface, triangle (0,0), (0,10), (10,0): pixel (3,1) has all 9 samples inside but column 3 is never visited | exclusive end clamped to `width` | medium, not executed | Triangles.LastColumnExample | Triangles.SmoothSpanReachesLastColumn |
| spxx.h:483-485 | `u - (int)u` is negative for negative `u`, so the column is negative | 4-wide texture, u = -0.5: column -2, read outside the texture row | wrap into the texture with a floored fraction | medium, not executed | Triangles.TexCoordNegative | Triangles.TexCoordWraps |
