/** The glyph compositor of the single-header extension: `spxxFontDrawGlyph` and
    `spxxFontDrawText`, which write through the unchecked pixel macro and report
    nothing. They draw the same picture as the font library's own copy, so the
    glyph, text and pixel definitions are shared with it. */
module SpxxFont {
  import opened SpxMath
  import opened Pixel
  import opened Surface
  import opened SpxFont

  /** A glyph drawn at p writes only surface pixels: it is empty, or its box lies on
      the surface. The unchecked writes demand this of the caller. */
  predicate Fits(width: int, height: int, g: Glyph, p: IVec2)
  {
    g.size.x == 0 || g.size.y == 0 ||
    (0 <= p.x && p.x + g.size.x <= width && 0 <= p.y && p.y + g.size.y <= height)
  }

  /** Every character of `text` drawn from cursor p fits. */
  predicate TextFits(width: int, height: int, font: Font2D, text: seq<char>, p: IVec2)
    requires FontValid(font) && TextValid(text)
  {
    forall i | 0 <= i < |text| ::
      Fits(width, height, font.glyphs[text[i] as int], IVec2(p.x + TextAdvance(font, text[..i]), p.y))
  }

  /** A fitting non-empty glyph drawn at p is one the font library's copy draws without
      reporting overflow. */
  lemma FitsNoOverflow(width: int, height: int, g: Glyph, p: IVec2)
    requires GlyphValid(g) && g.size.x >= 1 && g.size.y >= 1
    ensures Fits(width, height, g, p) <==> GlyphOverflow(width, height, g, p) == 0
  {
    GlyphOverflowZero(width, height, g, p);
  }

  /** One glyph row of `spxxFontDrawGlyph`. */
  method GlyphRow(tex: Tex2D, g: Glyph, p: IVec2, y: int, color: Px)
    requires tex.Valid() && GlyphValid(g) && Fits(tex.width, tex.height, g, p)
    requires p.y <= y < p.y + g.size.y
    modifies tex.fb
    ensures forall i, j | tex.Inside(i, j) ::
      tex.At(i, j) == if j == y then GlyphPixel(g, p, color, i, j, old(tex.At(i, j))) else old(tex.At(i, j))
  {
    var x := p.x;
    while x < p.x + g.size.x
      invariant p.x <= x <= p.x + g.size.x
      invariant forall i, j | tex.Inside(i, j) ::
        tex.At(i, j) ==
          if j == y && i < x then GlyphPixel(g, p, color, i, j, old(tex.At(i, j))) else old(tex.At(i, j))
    {
      var index := (g.size.y - 1 - (y - p.y)) * g.size.x + (x - p.x);
      GlyphIndexInRange(g, p, x, y);
      var t := g.pixmap[index] as real / 255.0;
      FontPlotIsPxLerp(tex.At(x, y), color, t);
      tex.Put(x, y, PxLerp(tex.At(x, y), color, t));
      x := x + 1;
    }
  }

  /** `spxxFontDrawGlyph`: blend every pixel of the glyph's box toward the colour by its
      bitmap value. */
  method DrawGlyph(tex: Tex2D, g: Glyph, p: IVec2, color: Px)
    requires tex.Valid() && GlyphValid(g) && Fits(tex.width, tex.height, g, p)
    modifies tex.fb
    ensures forall x, y | tex.Inside(x, y) ::
      tex.At(x, y) == GlyphPixel(g, p, color, x, y, old(tex.At(x, y)))
  {
    var endy := p.y + g.size.y;
    var y := p.y;
    while y < endy
      invariant p.y <= y <= endy
      invariant forall i, j | tex.Inside(i, j) ::
        tex.At(i, j) ==
          if j < y then GlyphPixel(g, p, color, i, j, old(tex.At(i, j))) else old(tex.At(i, j))
    {
      GlyphRow(tex, g, p, y, color);
      y := y + 1;
    }
  }

  /** `spxxFontDrawText`: draw every character's glyph at the cursor and move the cursor
      by its advance, with no stop at the surface edge. */
  method DrawText(tex: Tex2D, font: Font2D, text: seq<char>, p: IVec2, color: Px)
    requires tex.Valid() && FontValid(font) && TextValid(text)
    requires TextFits(tex.width, tex.height, font, text, p)
    modifies tex.fb
    ensures forall x, y | tex.Inside(x, y) ::
      tex.At(x, y) == TextPixel(font, text, p, color, x, y, old(tex.At(x, y)))
  {
    var cx := p.x;
    var i := 0;
    while i < |text|
      invariant 0 <= i <= |text|
      invariant cx == p.x + TextAdvance(font, text[..i])
      invariant forall x, y | tex.Inside(x, y) ::
        tex.At(x, y) == TextPixel(font, text[..i], p, color, x, y, old(tex.At(x, y)))
    {
      var g := font.glyphs[text[i] as int];
      TextStep(tex.width, tex.height, font, text, p, i);
      assert Fits(tex.width, tex.height, g, IVec2(cx, p.y));
      DrawGlyph(tex, g, IVec2(cx, p.y), color);
      forall x, y | tex.Inside(x, y)
        ensures tex.At(x, y) == TextPixel(font, text[..i + 1], p, color, x, y, old(tex.At(x, y)))
      {
        TextPixelStep(font, text, p, color, x, y, old(tex.At(x, y)), i);
      }
      cx := cx + g.advance / 64;
      i := i + 1;
    }
    assert text[..i] == text;
  }
}
