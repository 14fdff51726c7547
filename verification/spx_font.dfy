/** Simple PiXel Font: compositing 8-bit alpha glyph bitmaps onto a surface
    (`spxFontDrawGlyph`), drawing a string with a stop at the right edge
    (`spxFontDrawText`), and the built-in 6×6 glyph table (`spxGlyphs`). */
module SpxFont {
  import opened SpxMath
  import opened Pixel
  import opened Surface

  /** `Glyph`: a bitmap of `size.x` columns by `size.y` rows of alpha values, and the
      cursor advance in 26.6 fixed point (1/64 pixel units). */
  datatype Glyph = Glyph(pixmap: seq<Byte>, size: IVec2, bearing: IVec2, advance: nat)

  predicate GlyphValid(g: Glyph)
  {
    g.size.x >= 0 && g.size.y >= 0 && |g.pixmap| == g.size.x * g.size.y
  }

  /** `SPXF_GLYPH_COUNT`: one glyph per 7-bit character code. */
  const GlyphCount: nat := 128

  /** `Font2D`, without the font-library face it was loaded from. */
  datatype Font2D = Font2D(glyphs: seq<Glyph>)

  predicate FontValid(font: Font2D)
  {
    |font.glyphs| == GlyphCount && forall c | 0 <= c < |font.glyphs| :: GlyphValid(font.glyphs[c])
  }

  /** A C string's characters before its terminating NUL, each a code of the table. */
  predicate TextValid(text: seq<char>)
  {
    forall i | 0 <= i < |text| :: 0 < text[i] as int < GlyphCount
  }

  // ---------------------------------------------------------------------------
  // Blending

  /** `lerpu8`: `(uint8_t)(a + t * (b - a))`. */
  function LerpU8(a: Byte, b: Byte, t: real): (c: Byte)
    requires 0.0 <= t <= 1.0
    ensures a <= b ==> a <= c <= b
    ensures b <= a ==> b <= c <= a
  {
    LerpBetween(a as real, b as real, t);
    Trunc(a as real + Mul(t, (b - a) as real))
  }

  /** `lerpu8` keeps `a` at weight 0 and reaches `b` at weight 1. */
  lemma LerpU8Ends(a: Byte, b: Byte)
    ensures LerpU8(a, b, 0.0) == a
    ensures LerpU8(a, b, 1.0) == b
  {
    LerpEnds(a as real, b as real);
  }

  /** `spxFontPlot`: `lerpu8` on each of the four channels. */
  function FontPlot(a: Px, b: Px, t: real): Px
    requires 0.0 <= t <= 1.0
  {
    Px(LerpU8(a.r, b.r, t), LerpU8(a.g, b.g, t), LerpU8(a.b, b.b, t), LerpU8(a.a, b.a, t))
  }

  /** The font's own blend is the surface's `pxLerp`, channel for channel. */
  lemma FontPlotIsPxLerp(a: Px, b: Px, t: real)
    requires 0.0 <= t <= 1.0
    ensures FontPlot(a, b, t) == PxLerp(a, b, t)
  {
  }

  // ---------------------------------------------------------------------------
  // One glyph

  /** Surface pixel (x, y) lies in the box of a glyph drawn at p. */
  predicate InGlyph(g: Glyph, p: IVec2, x: int, y: int)
  {
    p.x <= x < p.x + g.size.x && p.y <= y < p.y + g.size.y
  }

  /** The bitmap index read for surface pixel (x, y): column `x - p.x` of row
      `size.y - 1 - (y - p.y)`, the rows taken bottom to top. */
  function GlyphIndex(g: Glyph, p: IVec2, x: int, y: int): int
  {
    (g.size.y - 1 - (y - p.y)) * g.size.x + (x - p.x)
  }

  /** Every index read lies in the bitmap; the glyph's top surface row reads the last
      bitmap row, and its bottom surface row the first. */
  lemma GlyphIndexInRange(g: Glyph, p: IVec2, x: int, y: int)
    requires GlyphValid(g) && InGlyph(g, p, x, y)
    ensures 0 <= GlyphIndex(g, p, x, y) < |g.pixmap|
    ensures y == p.y ==> GlyphIndex(g, p, x, y) == (g.size.y - 1) * g.size.x + (x - p.x)
    ensures y == p.y + g.size.y - 1 ==> GlyphIndex(g, p, x, y) == x - p.x
  {
    var row := g.size.y - 1 - (y - p.y);
    IndexInBuffer(g.size.x, g.size.y, x - p.x, row);
    assert g.size.x * row == row * g.size.x;
  }

  /** The blend weight of surface pixel (x, y): its bitmap value over 255. */
  function Alpha(g: Glyph, p: IVec2, x: int, y: int): (t: real)
    requires GlyphValid(g) && InGlyph(g, p, x, y)
    ensures 0.0 <= t <= 1.0
  {
    GlyphIndexInRange(g, p, x, y);
    g.pixmap[GlyphIndex(g, p, x, y)] as real / 255.0
  }

  /** Pixel (x, y), holding `c`, after the glyph is drawn at p. */
  function GlyphPixel(g: Glyph, p: IVec2, color: Px, x: int, y: int, c: Px): Px
    requires GlyphValid(g)
  {
    if InGlyph(g, p, x, y) then FontPlot(c, color, Alpha(g, p, x, y)) else c
  }

  /** A cell whose bitmap value is 0 leaves its pixel as it was; one whose value is 255
      paints the colour. */
  lemma GlyphAlphaEnds(g: Glyph, p: IVec2, color: Px, x: int, y: int, c: Px)
    requires GlyphValid(g) && InGlyph(g, p, x, y)
    ensures Alpha(g, p, x, y) == 0.0 ==> GlyphPixel(g, p, color, x, y, c) == c
    ensures Alpha(g, p, x, y) == 1.0 ==> GlyphPixel(g, p, color, x, y, c) == color
  {
    LerpU8Ends(c.r, color.r);
    LerpU8Ends(c.g, color.g);
    LerpU8Ends(c.b, color.b);
    LerpU8Ends(c.a, color.a);
  }

  /** How many of the integers in `[lo, hi)` exceed `limit`. */
  function CountAbove(lo: int, hi: int, limit: int): nat
    decreases hi - lo
  {
    if hi <= lo then 0 else CountAbove(lo, hi - 1, limit) + if hi - 1 > limit then 1 else 0
  }

  /** `CountAbove` in closed form: the length of `[max(lo, limit + 1), hi)`. */
  lemma {:induction false} CountAboveClosed(lo: int, hi: int, limit: int)
    ensures CountAbove(lo, hi, limit) == if hi <= lo then 0 else MaxI(0, hi - MaxI(lo, limit + 1))
    decreases hi - lo
  {
    if hi > lo {
      CountAboveClosed(lo, hi - 1, limit);
    }
  }

  /** What `spxFontDrawGlyph` returns: 1 when the glyph starts left of or above the
      surface, plus one per glyph row below the last surface row, plus one per glyph cell
      right of the last surface column. */
  function GlyphOverflow(width: int, height: int, g: Glyph, p: IVec2): nat
    requires GlyphValid(g)
  {
    var cols := CountAbove(p.x, p.x + g.size.x, width - 1);
    ProductNonNeg(g.size.y, cols);
    (if p.y < 0 || p.x < 0 then 1 else 0) + CountAbove(p.y, p.y + g.size.y, height - 1) + g.size.y * cols
  }

  /** A non-empty glyph reports no overflow exactly when its box lies on the surface; then
      every pixel it covers is a surface pixel. */
  lemma GlyphOverflowZero(width: int, height: int, g: Glyph, p: IVec2)
    requires GlyphValid(g) && g.size.x >= 1 && g.size.y >= 1
    ensures GlyphOverflow(width, height, g, p) == 0 <==>
      0 <= p.x && p.x + g.size.x <= width && 0 <= p.y && p.y + g.size.y <= height
    ensures GlyphOverflow(width, height, g, p) == 0 ==>
      forall x, y | InGlyph(g, p, x, y) :: 0 <= x < width && 0 <= y < height
  {
    CountAboveClosed(p.x, p.x + g.size.x, width - 1);
    CountAboveClosed(p.y, p.y + g.size.y, height - 1);
    var cols := CountAbove(p.x, p.x + g.size.x, width - 1);
    if cols > 0 {
      ProductNonNeg(g.size.y - 1, cols);
    }
  }

  /** One glyph row of `spxFontDrawGlyph`, the write skipped for cells off the surface. */
  method GlyphRow(tex: Tex2D, g: Glyph, p: IVec2, y: int, color: Px) returns (over: int)
    requires tex.Valid() && GlyphValid(g) && p.y <= y < p.y + g.size.y
    modifies tex.fb
    ensures over == CountAbove(p.x, p.x + g.size.x, tex.width - 1)
    ensures forall i, j | tex.Inside(i, j) ::
      tex.At(i, j) == if j == y then GlyphPixel(g, p, color, i, j, old(tex.At(i, j))) else old(tex.At(i, j))
  {
    over := 0;
    var x := p.x;
    while x < p.x + g.size.x
      invariant p.x <= x <= p.x + g.size.x
      invariant over == CountAbove(p.x, x, tex.width - 1)
      invariant forall i, j | tex.Inside(i, j) ::
        tex.At(i, j) ==
          if j == y && i < x then GlyphPixel(g, p, color, i, j, old(tex.At(i, j))) else old(tex.At(i, j))
    {
      var index := (g.size.y - 1 - (y - p.y)) * g.size.x + (x - p.x);
      GlyphIndexInRange(g, p, x, y);
      if tex.Inside(x, y) {
        tex.Put(x, y, FontPlot(tex.At(x, y), color, g.pixmap[index] as real / 255.0));
      }
      over := over + if x > tex.width - 1 then 1 else 0;
      x := x + 1;
    }
  }

  /** `spxFontDrawGlyph`: blend every surface pixel of the glyph's box toward the colour
      by its bitmap value, and return the overflow count. */
  method DrawGlyph(tex: Tex2D, g: Glyph, p: IVec2, color: Px) returns (ret: int)
    requires tex.Valid() && GlyphValid(g)
    modifies tex.fb
    ensures ret == GlyphOverflow(tex.width, tex.height, g, p)
    ensures forall x, y | tex.Inside(x, y) ::
      tex.At(x, y) == GlyphPixel(g, p, color, x, y, old(tex.At(x, y)))
  {
    var resx, resy := tex.width - 1, tex.height - 1;
    var endx, endy := p.x + g.size.x, p.y + g.size.y;
    var flag := if p.y < 0 || p.x < 0 then 1 else 0;
    ghost var cols := CountAbove(p.x, endx, resx);
    ret := flag;
    var y := p.y;
    while y < endy
      invariant p.y <= y <= endy
      invariant ret == flag + CountAbove(p.y, y, resy) + (y - p.y) * cols
      invariant forall i, j | tex.Inside(i, j) ::
        tex.At(i, j) ==
          if j < y then GlyphPixel(g, p, color, i, j, old(tex.At(i, j))) else old(tex.At(i, j))
    {
      ret := ret + if y > resy then 1 else 0;
      var over := GlyphRow(tex, g, p, y, color);
      ret := ret + over;
      assert (y + 1 - p.y) * cols == (y - p.y) * cols + cols;
      y := y + 1;
    }
  }

  // ---------------------------------------------------------------------------
  // Text

  /** `advance >> 6`: the cursor advance in whole pixels. */
  function Advance(g: Glyph): nat
  {
    g.advance / 64
  }

  /** The cursor offset after the characters of `text`. */
  function TextAdvance(font: Font2D, text: seq<char>): nat
    requires FontValid(font) && TextValid(text)
  {
    if |text| == 0 then 0
    else TextAdvance(font, text[..|text| - 1]) + Advance(font.glyphs[text[|text| - 1] as int])
  }

  /** Pixel (x, y), holding `c`, after the characters of `text` are drawn one after the
      other from cursor p. */
  function TextPixel(font: Font2D, text: seq<char>, p: IVec2, color: Px, x: int, y: int, c: Px): Px
    requires FontValid(font) && TextValid(text)
  {
    if |text| == 0 then c
    else
      var init := text[..|text| - 1];
      GlyphPixel(font.glyphs[text[|text| - 1] as int], IVec2(p.x + TextAdvance(font, init), p.y),
        color, x, y, TextPixel(font, init, p, color, x, y, c))
  }

  /** The sum of the overflow counts of the glyphs of `text` drawn from cursor p. */
  function TextOverflow(width: int, height: int, font: Font2D, text: seq<char>, p: IVec2): nat
    requires FontValid(font) && TextValid(text)
  {
    if |text| == 0 then 0
    else
      var init := text[..|text| - 1];
      TextOverflow(width, height, font, init, p) +
        GlyphOverflow(width, height, font.glyphs[text[|text| - 1] as int], IVec2(p.x + TextAdvance(font, init), p.y))
  }

  /** The cursor and the overflow count after the first `i + 1` characters are those after
      the first `i`, extended by character `i`. */
  lemma TextStep(width: int, height: int, font: Font2D, text: seq<char>, p: IVec2, i: nat)
    requires FontValid(font) && TextValid(text) && i < |text|
    ensures TextAdvance(font, text[..i + 1]) ==
      TextAdvance(font, text[..i]) + Advance(font.glyphs[text[i] as int])
    ensures TextOverflow(width, height, font, text[..i + 1], p) ==
      TextOverflow(width, height, font, text[..i], p) +
      GlyphOverflow(width, height, font.glyphs[text[i] as int], IVec2(p.x + TextAdvance(font, text[..i]), p.y))
  {
    assert text[..i + 1][..i] == text[..i];
  }

  /** Pixel (x, y) after the first `i + 1` characters is pixel (x, y) after the first `i`,
      with character `i` drawn over it at the cursor they leave. */
  lemma TextPixelStep(font: Font2D, text: seq<char>, p: IVec2, color: Px, x: int, y: int, c: Px, i: nat)
    requires FontValid(font) && TextValid(text) && i < |text|
    ensures TextPixel(font, text[..i + 1], p, color, x, y, c) ==
      GlyphPixel(font.glyphs[text[i] as int], IVec2(p.x + TextAdvance(font, text[..i]), p.y), color, x, y,
        TextPixel(font, text[..i], p, color, x, y, c))
  {
    assert text[..i + 1][..i] == text[..i];
  }

  /** How many characters `spxFontDrawText` draws, searching from character `i`: up to and
      including the first after which the cursor has reached `width`, or all of them. */
  function DrawnFrom(font: Font2D, text: seq<char>, x0: int, width: int, i: nat): (n: nat)
    requires FontValid(font) && TextValid(text) && i <= |text|
    ensures i <= n <= |text|
    decreases |text| - i
  {
    if i == |text| then |text|
    else if x0 + TextAdvance(font, text[..i + 1]) >= width then i + 1
    else DrawnFrom(font, text, x0, width, i + 1)
  }

  function Drawn(font: Font2D, text: seq<char>, x0: int, width: int): (n: nat)
    requires FontValid(font) && TextValid(text)
    ensures n <= |text|
  {
    DrawnFrom(font, text, x0, width, 0)
  }

  /** The extra 1 `spxFontDrawText` adds when it stops at the surface width. */
  function StopFlag(font: Font2D, text: seq<char>, x0: int, width: int): nat
    requires FontValid(font) && TextValid(text)
  {
    var n := Drawn(font, text, x0, width);
    if n > 0 && x0 + TextAdvance(font, text[..n]) >= width then 1 else 0
  }

  lemma {:induction false} DrawnFromFirst(font: Font2D, text: seq<char>, x0: int, width: int, i: nat)
    requires FontValid(font) && TextValid(text) && i <= |text|
    ensures i <= DrawnFrom(font, text, x0, width, i) <= |text|
    ensures forall j | i < j < DrawnFrom(font, text, x0, width, i) ::
      x0 + TextAdvance(font, text[..j]) < width
    ensures DrawnFrom(font, text, x0, width, i) < |text| ==>
      DrawnFrom(font, text, x0, width, i) > i &&
      x0 + TextAdvance(font, text[..DrawnFrom(font, text, x0, width, i)]) >= width
    decreases |text| - i
  {
    if i < |text| && x0 + TextAdvance(font, text[..i + 1]) < width {
      DrawnFromFirst(font, text, x0, width, i + 1);
    }
  }

  /** `spxFontDrawText` draws characters while the cursor stays left of `width`: every
      character before the last one drawn leaves the cursor short of it, and when
      characters are left undrawn the last one drawn took the cursor to or past it. */
  lemma DrawnStopsAtFirstOverflow(font: Font2D, text: seq<char>, x0: int, width: int)
    requires FontValid(font) && TextValid(text)
    ensures Drawn(font, text, x0, width) <= |text|
    ensures forall j | 0 < j < Drawn(font, text, x0, width) :: x0 + TextAdvance(font, text[..j]) < width
    ensures Drawn(font, text, x0, width) < |text| ==> StopFlag(font, text, x0, width) == 1
  {
    DrawnFromFirst(font, text, x0, width, 0);
  }

  /** A non-empty text whose advance takes the cursor to the surface width or beyond is
      reported with the extra 1. */
  lemma TooWideReported(font: Font2D, text: seq<char>, x0: int, width: int)
    requires FontValid(font) && TextValid(text) && |text| > 0
    requires x0 + TextAdvance(font, text) >= width
    ensures StopFlag(font, text, x0, width) == 1
  {
    DrawnFromFirst(font, text, x0, width, 0);
    assert text[..|text|] == text;
  }

  /** When the cursor is still short of `width` before the last character,
      `spxFontDrawText` draws every character. */
  lemma DrawsAllWhenNoStop(font: Font2D, text: seq<char>, x0: int, width: int)
    requires FontValid(font) && TextValid(text)
    requires |text| > 0 ==> x0 + TextAdvance(font, text[..|text| - 1]) < width
    ensures Drawn(font, text, x0, width) == |text|
  {
    DrawnStopsAtFirstOverflow(font, text, x0, width);
    if Drawn(font, text, x0, width) < |text| {
      var n := Drawn(font, text, x0, width);
      AdvanceMonotone(font, text, n, |text| - 1);
    }
  }

  /** The cursor never moves left. */
  lemma {:induction false} AdvanceMonotone(font: Font2D, text: seq<char>, i: nat, j: nat)
    requires FontValid(font) && TextValid(text) && i <= j <= |text|
    ensures TextAdvance(font, text[..i]) <= TextAdvance(font, text[..j])
    decreases j - i
  {
    if i < j {
      AdvanceMonotone(font, text, i, j - 1);
      assert text[..j][..j - 1] == text[..j - 1];
    }
  }

  /** `spxFontDrawText`: draw each character's glyph at the cursor, move the cursor by the
      glyph's advance, and stop once it reaches the surface width. Returns the glyphs'
      overflow counts plus the stop flag. */
  method DrawText(tex: Tex2D, font: Font2D, text: seq<char>, p: IVec2, color: Px) returns (ret: int)
    requires tex.Valid() && FontValid(font) && TextValid(text)
    modifies tex.fb
    ensures ret == TextOverflow(tex.width, tex.height, font, text[..Drawn(font, text, p.x, tex.width)], p) +
      StopFlag(font, text, p.x, tex.width)
    ensures forall x, y | tex.Inside(x, y) ::
      tex.At(x, y) == TextPixel(font, text[..Drawn(font, text, p.x, tex.width)], p, color, x, y, old(tex.At(x, y)))
  {
    ret := 0;
    var cx := p.x;
    var i := 0;
    while i < |text|
      invariant 0 <= i <= |text|
      invariant cx == p.x + TextAdvance(font, text[..i])
      invariant i > 0 ==> cx < tex.width
      invariant Drawn(font, text, p.x, tex.width) == DrawnFrom(font, text, p.x, tex.width, i)
      invariant ret == TextOverflow(tex.width, tex.height, font, text[..i], p)
      invariant forall x, y | tex.Inside(x, y) ::
        tex.At(x, y) == TextPixel(font, text[..i], p, color, x, y, old(tex.At(x, y)))
    {
      var g := font.glyphs[text[i] as int];
      TextStep(tex.width, tex.height, font, text, p, i);
      var r := DrawGlyph(tex, g, IVec2(cx, p.y), color);
      forall x, y | tex.Inside(x, y)
        ensures tex.At(x, y) == TextPixel(font, text[..i + 1], p, color, x, y, old(tex.At(x, y)))
      {
        TextPixelStep(font, text, p, color, x, y, old(tex.At(x, y)), i);
      }
      ret := ret + r;
      cx := cx + g.advance / 64;
      if cx >= tex.width {
        ret := ret + 1;
        i := i + 1;
        break;
      }
      i := i + 1;
    }
  }

  // ---------------------------------------------------------------------------
  // The built-in glyph table

  /** `SPXF_DEFAULT_FONT_WIDTH` and `SPXF_DEFAULT_FONT_HEIGHT` */
  const DefaultSize: nat := 6

  predicate IsUpper(c: int) { 'A' as int <= c <= 'Z' as int }

  /** The characters `spxGlyphs` lists: letters, digits, and ` ,.-!?`. */
  predicate Listed(c: int)
  {
    IsUpper(c) || 'a' as int <= c <= 'z' as int || '0' as int <= c <= '9' as int ||
    c == ' ' as int || c == ',' as int || c == '.' as int || c == '-' as int ||
    c == '!' as int || c == '?' as int
  }

  /** The bitmaps `spxPixmaps`: one 6×6 bitmap per character code. */
  predicate PixmapsValid(pixmaps: seq<seq<Byte>>)
  {
    |pixmaps| == GlyphCount && forall c | 0 <= c < |pixmaps| :: |pixmaps[c]| == DefaultSize * DefaultSize
  }

  /** Entry `c` of `spxGlyphs`: a listed character gets the 6×6 size and bearing and the
      advance `6 << 6`, uppercase letters with the bitmap `spxPixmaps[c + 32]`; an entry
      the table does not list stays zero. */
  function DefaultGlyph(pixmaps: seq<seq<Byte>>, c: int): Glyph
    requires PixmapsValid(pixmaps) && 0 <= c < GlyphCount
  {
    var size := IVec2(DefaultSize, DefaultSize);
    if IsUpper(c) then Glyph(pixmaps[c + 32], size, size, DefaultSize * 64)
    else if Listed(c) then Glyph(pixmaps[c], size, size, DefaultSize * 64)
    else Glyph([], IVec2(0, 0), IVec2(0, 0), 0)
  }

  /** `spxFontDefault` */
  function DefaultFont(pixmaps: seq<seq<Byte>>): (font: Font2D)
    requires PixmapsValid(pixmaps)
    ensures FontValid(font)
  {
    Font2D(seq(GlyphCount, c requires 0 <= c < GlyphCount => DefaultGlyph(pixmaps, c)))
  }

  /** Every listed glyph of the default font is 6×6 and moves the cursor by 6 pixels; an
      unlisted one is empty and does not move it. */
  lemma DefaultGlyphShape(pixmaps: seq<seq<Byte>>, c: int)
    requires PixmapsValid(pixmaps) && 0 <= c < GlyphCount
    ensures Listed(c) ==> DefaultFont(pixmaps).glyphs[c].size == IVec2(6, 6)
    ensures Listed(c) ==> Advance(DefaultFont(pixmaps).glyphs[c]) == 6
    ensures !Listed(c) ==> DefaultFont(pixmaps).glyphs[c].size == IVec2(0, 0)
    ensures !Listed(c) ==> Advance(DefaultFont(pixmaps).glyphs[c]) == 0
  {
  }

  /** Each uppercase letter of the default font is its lowercase letter. */
  lemma UppercaseIsLowercase(pixmaps: seq<seq<Byte>>, c: int)
    requires PixmapsValid(pixmaps) && IsUpper(c)
    ensures DefaultFont(pixmaps).glyphs[c].pixmap == pixmaps[c + 32]
    ensures DefaultFont(pixmaps).glyphs[c] == DefaultFont(pixmaps).glyphs[c + 32]
  {
  }

  /** A text of listed characters moves the default font's cursor by 6 pixels each. */
  lemma {:induction false} DefaultTextAdvance(pixmaps: seq<seq<Byte>>, text: seq<char>)
    requires PixmapsValid(pixmaps) && TextValid(text)
    requires forall i | 0 <= i < |text| :: Listed(text[i] as int)
    ensures TextAdvance(DefaultFont(pixmaps), text) == 6 * |text|
  {
    if |text| > 0 {
      DefaultTextAdvance(pixmaps, text[..|text| - 1]);
      DefaultGlyphShape(pixmaps, text[|text| - 1] as int);
    }
  }
}
