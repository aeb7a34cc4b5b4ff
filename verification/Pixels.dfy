/** Where the cells of the terminal lie in the frame buffer, and which colour each pixel must have. */
module Pixels {
  import opened Arith
  import opened PlainScreen

  /** The geometry computed by `flanterm_fb_init`; `stride` is `pitch / 4`. */
  datatype Geometry = Geometry(
    width: nat, height: nat, stride: nat, fontWidth: nat, fontHeight: nat,
    scaleX: nat, scaleY: nat, glyphWidth: nat, glyphHeight: nat,
    offsetX: nat, offsetY: nat, rows: nat, cols: nat)
  {
    ghost predicate Valid() {
      && fontWidth >= 1 && fontHeight >= 1 && scaleX >= 1 && scaleY >= 1
      && glyphWidth == fontWidth * scaleX && glyphHeight == fontHeight * scaleY
      && glyphWidth >= 1 && glyphHeight >= 1 && fontHeight <= 256
      && width <= stride
      && offsetX + cols * glyphWidth <= width
      && offsetY + rows * glyphHeight <= height
      && rows >= 1 && cols >= 1
    }

    function Row(p: nat): int requires stride > 0 { p / stride }
    function Col(p: nat): int requires stride > 0 { p % stride }

    /** Pixel `p` belongs to some cell of the text grid. */
    predicate OnGrid(p: nat)
      requires stride > 0
    {
      offsetX <= Col(p) < offsetX + cols * glyphWidth && offsetY <= Row(p) < offsetY + rows * glyphHeight
    }

    function CellX(p: nat): int requires stride > 0 && glyphWidth > 0 { (Col(p) - offsetX) / glyphWidth }
    function CellY(p: nat): int requires stride > 0 && glyphHeight > 0 { (Row(p) - offsetY) / glyphHeight }

    /** Pixel `p` belongs to cell `(x, y)`. */
    predicate InCell(p: nat, x: nat, y: nat)
      requires Valid()
    {
      OnGrid(p) && CellX(p) == x && CellY(p) == y
    }

    /** The number of the cell that pixel `p` belongs to. */
    function CellIndex(p: nat): int
      requires Valid()
    {
      CellY(p) * cols + CellX(p)
    }

    lemma CellIndexBounds(p: nat)
      requires Valid() && OnGrid(p)
      ensures 0 <= CellIndex(p) < rows * cols
    {
      CellBounds(p);
      InBlock(CellY(p), CellX(p), rows, cols);
    }

    lemma InCellIndex(p: nat, x: nat, y: nat)
      requires Valid() && x < cols
      ensures InCell(p, x, y) <==> OnGrid(p) && CellIndex(p) == y * cols + x
    {
      if OnGrid(p) && CellIndex(p) == y * cols + x {
        CellBounds(p);
        BlockUnique(CellY(p), CellX(p), y, x, cols);
      }
    }

    /** A whole line of the screen is a run of `width` pixels. */
    lemma ScreenLine(p: nat, y: nat)
      requires Valid()
      ensures y * stride <= p < y * stride + width <==> Row(p) == y && Col(p) < width
      ensures y * stride <= p < y * stride + width ==> Col(p) == p - y * stride
    {
      Fundamental(p, stride);
      if y * stride <= p < y * stride + width {
        DivModOf(y, p - y * stride, stride);
      }
    }

    /** Position inside the cell. */
    function GlyphX(p: nat): int requires stride > 0 && glyphWidth > 0 { (Col(p) - offsetX) % glyphWidth }
    function GlyphY(p: nat): int requires stride > 0 && glyphHeight > 0 { (Row(p) - offsetY) % glyphHeight }

    lemma CellBounds(p: nat)
      requires Valid() && OnGrid(p)
      ensures 0 <= CellX(p) < cols && 0 <= CellY(p) < rows
    {
      DivBound(Col(p) - offsetX, cols, glyphWidth);
      DivBound(Row(p) - offsetY, rows, glyphHeight);
    }

    /** A cell covers whole runs of `glyphWidth` pixels on `glyphHeight` consecutive lines. */
    lemma InCellIsRectangle(p: nat, x: nat, y: nat)
      requires Valid() && x < cols && y < rows
      ensures InCell(p, x, y) <==>
              && offsetX + x * glyphWidth <= Col(p) < offsetX + x * glyphWidth + glyphWidth
              && offsetY + y * glyphHeight <= Row(p) < offsetY + y * glyphHeight + glyphHeight
    {
      Span(Col(p) - offsetX, x, cols, glyphWidth);
      Span(Row(p) - offsetY, y, rows, glyphHeight);
    }

    lemma GlyphOf(p: nat, x: nat, y: nat)
      requires Valid() && InCell(p, x, y)
      ensures GlyphX(p) == Col(p) - (offsetX + x * glyphWidth) && GlyphY(p) == Row(p) - (offsetY + y * glyphHeight)
      ensures 0 <= GlyphX(p) < glyphWidth && 0 <= GlyphY(p) < glyphHeight
    {
      Fundamental(Col(p) - offsetX, glyphWidth);
      Fundamental(Row(p) - offsetY, glyphHeight);
    }

    /** The start, in the frame buffer, of line `gy` of cell `(x, y)`. */
    function LineStart(x: nat, y: nat, gy: nat): nat {
      (offsetY + y * glyphHeight + gy) * stride + (offsetX + x * glyphWidth)
    }

    lemma LineFits(x: nat, y: nat, gy: nat)
      requires Valid() && x < cols && y < rows && gy < glyphHeight
      ensures 0 <= offsetX + x * glyphWidth && offsetX + x * glyphWidth + glyphWidth <= width
      ensures 0 <= offsetY + y * glyphHeight + gy < height
      ensures LineStart(x, y, gy) + glyphWidth <= height * stride
    {
      InBlock(x, 0, cols, glyphWidth);
      MulLe(x + 1, cols, glyphWidth);
      MulStep(x, glyphWidth);
      InBlock(y, gy, rows, glyphHeight);
      var r := offsetY + y * glyphHeight + gy;
      MulLe(r + 1, height, stride);
      MulStep(r, stride);
    }

    /** The pixels of one line of a cell are exactly a run that starts at `LineStart`. */
    lemma LineSpan(p: nat, x: nat, y: nat, gy: nat)
      requires Valid() && x < cols && y < rows && gy < glyphHeight
      ensures LineStart(x, y, gy) <= p < LineStart(x, y, gy) + glyphWidth <==>
              InCell(p, x, y) && GlyphY(p) == gy
      ensures LineStart(x, y, gy) <= p < LineStart(x, y, gy) + glyphWidth ==>
              GlyphX(p) == p - LineStart(x, y, gy)
    {
      var r, c := offsetY + y * glyphHeight + gy, offsetX + x * glyphWidth;
      LineFits(x, y, gy);
      InCellIsRectangle(p, x, y);
      Fundamental(p, stride);
      if LineStart(x, y, gy) <= p < LineStart(x, y, gy) + glyphWidth {
        DivModOf(r, p - r * stride, stride);
        GlyphOf(p, x, y);
      } else if InCell(p, x, y) && GlyphY(p) == gy {
        GlyphOf(p, x, y);
      }
    }
  }

  lemma Span(v: int, q: nat, n: nat, d: nat)
    requires q < n && d >= 1
    ensures 0 <= v < n * d && v / d == q <==> q * d <= v < q * d + d
  {
    Fundamental(v, d);
    if q * d <= v < q * d + d {
      DivModOf(q, v - q * d, d);
      InBlock(q, v - q * d, n, d);
    }
  }

  /** The geometry set up for a screen of the given size: the grid lies inside the margins. */
  function Layout(width: nat, height: nat, stride: nat, fontWidth: nat, fontHeight: nat, scaleX: nat, scaleY: nat,
                  margin: nat): Geometry
    requires fontWidth >= 1 && fontHeight >= 1 && scaleX >= 1 && scaleY >= 1
    requires 2 * margin <= width && 2 * margin <= height
  {
    MulNonneg(fontWidth, scaleX);
    MulNonneg(fontHeight, scaleY);
    MulLe(1, fontWidth, scaleX);
    MulLe(1, fontHeight, scaleY);
    var gw, gh := fontWidth * scaleX, fontHeight * scaleY;
    var w, h := width - 2 * margin, height - 2 * margin;
    Fundamental(w, gw);
    Fundamental(h, gh);
    DivNonneg(w, gw);
    DivNonneg(h, gh);
    Geometry(width, height, stride, fontWidth, fontHeight, scaleX, scaleY, gw, gh,
             margin + w % gw / 2, margin + h % gh / 2, h / gh, w / gw)
  }

  lemma DivNonneg(x: nat, d: nat)
    requires d > 0
    ensures x / d >= 0
  {
    Fundamental(x, d);
    if x / d < 0 {
      MulLe(x / d + 1, 0, d);
      MulStep(x / d, d);
    }
  }

  /** As soon as one cell fits between the margins, every cell lies on the screen. The grid has as many rows and columns
      as fit between the margins and is centred: left over on both sides is the same number of pixels, or one more on
      the far side. */
  lemma LayoutValid(width: nat, height: nat, stride: nat, fontWidth: nat, fontHeight: nat, scaleX: nat, scaleY: nat,
                    margin: nat)
    requires fontWidth >= 1 && 1 <= fontHeight <= 256 && scaleX >= 1 && scaleY >= 1
    requires 2 * margin <= width <= stride && 2 * margin <= height
    requires fontWidth * scaleX <= width - 2 * margin && fontHeight * scaleY <= height - 2 * margin
    ensures var g := Layout(width, height, stride, fontWidth, fontHeight, scaleX, scaleY, margin);
            && g.Valid()
            && g.cols * g.glyphWidth <= width - 2 * margin < (g.cols + 1) * g.glyphWidth
            && g.rows * g.glyphHeight <= height - 2 * margin < (g.rows + 1) * g.glyphHeight
            && 0 <= (width - (g.offsetX + g.cols * g.glyphWidth)) - g.offsetX <= 1 && g.offsetX >= margin
            && 0 <= (height - (g.offsetY + g.rows * g.glyphHeight)) - g.offsetY <= 1 && g.offsetY >= margin
  {
    MulLe(1, fontWidth, scaleX);
    MulLe(1, fontHeight, scaleY);
    var gw, gh := fontWidth * scaleX, fontHeight * scaleY;
    var w, h := width - 2 * margin, height - 2 * margin;
    Fundamental(w, gw);
    Fundamental(h, gh);
    AtLeastOne(w, gw);
    AtLeastOne(h, gh);
    MulStep(w / gw, gw);
    MulStep(h / gh, gh);
  }

  lemma AtLeastOne(x: nat, d: nat)
    requires 0 < d <= x
    ensures x / d >= 1
  {
    Fundamental(x, d);
    if x / d < 1 {
      MulLe(x / d, 0, d);
    }
  }

  /** The glyph bitmaps, `font_bool`. */
  datatype Font = Font(bits: seq<bool>, width: nat, height: nat)
  {
    ghost predicate Valid() {
      |bits| == 256 * height * width
    }

    lemma IndexFits(c: Glyph, fx: nat, fy: nat)
      requires Valid() && fx < width && fy < height
      ensures 0 <= c * height * width + (fy * width + fx) < |bits|
    {
      InBlock(fy, fx, height, width);
      InBlock(c, fy * width + fx, 256, height * width);
      assert c * (height * width) == c * height * width;
      assert 256 * (height * width) == 256 * height * width;
    }

    function Ink(c: Glyph, fx: nat, fy: nat): bool
      requires Valid() && fx < width && fy < height
    {
      IndexFits(c, fx, fy);
      bits[c * height * width + (fy * width + fx)]
    }
  }

  /** A colour of a cell over the canvas behind it. */
  function Shade(cell: Cell, ink: bool, canvas: nat): nat {
    var colour := if ink then cell.fg else cell.bg;
    if colour == TRANSPARENT then canvas else colour
  }

  /** Font and canvas fit the geometry. */
  ghost predicate Fits(geo: Geometry, font: Font, canvas: seq<nat>) {
    geo.Valid() && font.Valid() && font.width == geo.fontWidth && font.height == geo.fontHeight &&
    |canvas| == geo.height * geo.width
  }

  lemma WantFits(geo: Geometry, p: nat)
    requires geo.Valid() && geo.OnGrid(p)
    ensures 0 <= geo.GlyphX(p) < geo.glyphWidth && 0 <= geo.GlyphY(p) < geo.glyphHeight
    ensures 0 <= geo.GlyphX(p) / geo.scaleX < geo.fontWidth && 0 <= geo.GlyphY(p) / geo.scaleY < geo.fontHeight
    ensures 0 <= geo.Row(p) * geo.width + geo.Col(p) < geo.height * geo.width
  {
    Fundamental(geo.Col(p) - geo.offsetX, geo.glyphWidth);
    Fundamental(geo.Row(p) - geo.offsetY, geo.glyphHeight);
    DivBound(geo.GlyphX(p), geo.fontWidth, geo.scaleX);
    DivBound(geo.GlyphY(p), geo.fontHeight, geo.scaleY);
    InBlock(geo.Row(p), geo.Col(p), geo.height, geo.width);
  }

  /** Whether pixel `p` of its cell is ink when the cell holds character `c`. */
  function InkAt(geo: Geometry, font: Font, canvas: seq<nat>, c: Glyph, p: nat): bool
    requires Fits(geo, font, canvas) && geo.OnGrid(p)
  {
    WantFits(geo, p);
    font.Ink(c, geo.GlyphX(p) / geo.scaleX, geo.GlyphY(p) / geo.scaleY)
  }

  /** The colour that pixel `p` must have when its cell is drawn as `cell`. */
  function Want(geo: Geometry, font: Font, canvas: seq<nat>, cell: Cell, p: nat): nat
    requires Fits(geo, font, canvas) && geo.OnGrid(p)
  {
    WantFits(geo, p);
    Shade(cell, InkAt(geo, font, canvas, cell.c, p), canvas[geo.Row(p) * geo.width + geo.Col(p)])
  }

  /** The colour of the pixel in column `gx` of line `gy` of cell `(x, y)` when character `c` is drawn there with
      foreground `fg` and background `bg`, from the bitmap, the geometry and the canvas alone. */
  ghost predicate PixelIs(geo: Geometry, font: Font, canvas: seq<nat>, c: Glyph, fg: nat, bg: nat,
                          x: nat, y: nat, gx: nat, gy: nat, pixels: seq<nat>)
    requires geo.scaleX > 0 && geo.scaleY > 0
  {
    var row, col := geo.offsetY + y * geo.glyphHeight + gy, geo.offsetX + x * geo.glyphWidth + gx;
    var bit := c * geo.fontHeight * geo.fontWidth + (gy / geo.scaleY * geo.fontWidth + gx / geo.scaleX);
    && 0 <= bit < |font.bits| && 0 <= row * geo.width + col < |canvas| && 0 <= row * geo.stride + col < |pixels|
    && pixels[row * geo.stride + col] ==
       var colour := if font.bits[bit] then fg else bg;
       if colour == TRANSPARENT then canvas[row * geo.width + col] else colour
  }

  /** Character `c` is drawn in cell `(x, y)` in the given colours. */
  ghost predicate Pictured(geo: Geometry, font: Font, canvas: seq<nat>, c: Glyph, fg: nat, bg: nat,
                           x: nat, y: nat, pixels: seq<nat>)
    requires geo.scaleX > 0 && geo.scaleY > 0
  {
    forall gx: nat, gy: nat :: gx < geo.glyphWidth && gy < geo.glyphHeight ==>
      PixelIs(geo, font, canvas, c, fg, bg, x, y, gx, gy, pixels)
  }

  /** What the inner loops compute for column `gx` of line `gy` is the wanted colour. */
  lemma WantAt(geo: Geometry, font: Font, canvas: seq<nat>, cell: Cell, x: nat, y: nat, gy: nat, fx: nat, i: nat)
    requires Fits(geo, font, canvas) && x < geo.cols && y < geo.rows && gy < geo.glyphHeight
    requires fx < geo.fontWidth && i < geo.scaleX
    ensures 0 <= fx * geo.scaleX + i < geo.glyphWidth
    ensures 0 <= gy / geo.scaleY < geo.fontHeight
    ensures var gx := fx * geo.scaleX + i;
            var p := (geo.offsetX + x * geo.glyphWidth) + (geo.offsetY + y * geo.glyphHeight + gy) * geo.stride + gx;
            var at := (geo.offsetX + x * geo.glyphWidth) + (geo.offsetY + y * geo.glyphHeight + gy) * geo.width + gx;
            var bit := cell.c * geo.fontHeight * geo.fontWidth + (gy / geo.scaleY * geo.fontWidth + fx);
            && p == geo.LineStart(x, y, gy) + gx && geo.InCell(p, x, y) && geo.OnGrid(p)
            && 0 <= at < |canvas| && 0 <= bit < |font.bits|
            && InkAt(geo, font, canvas, cell.c, p) == font.bits[bit]
            && Want(geo, font, canvas, cell, p) ==
               var colour := if font.bits[bit] then cell.fg else cell.bg;
               if colour == TRANSPARENT then canvas[at] else colour
  {
    InBlock(fx, i, geo.fontWidth, geo.scaleX);
    DivBound(gy, geo.fontHeight, geo.scaleY);
    var gx := fx * geo.scaleX + i;
    var p := geo.LineStart(x, y, gy) + gx;
    geo.LineFits(x, y, gy);
    geo.LineSpan(p, x, y, gy);
    DivModOf(fx, i, geo.scaleX);
    font.IndexFits(cell.c, fx, gy / geo.scaleY);
    var r, c := geo.offsetY + y * geo.glyphHeight + gy, geo.offsetX + x * geo.glyphWidth + gx;
    DivModOf(r, c, geo.stride);
    InBlock(r, c, geo.height, geo.width);
  }

  /** A cell whose pixels all have their wanted colours shows its character. */
  lemma WantedIsPictured(geo: Geometry, font: Font, canvas: seq<nat>, cell: Cell, x: nat, y: nat, pixels: seq<nat>)
    requires Fits(geo, font, canvas) && x < geo.cols && y < geo.rows && |pixels| == geo.height * geo.stride
    requires forall p :: 0 <= p < |pixels| && geo.InCell(p, x, y) ==> pixels[p] == Want(geo, font, canvas, cell, p)
    ensures Pictured(geo, font, canvas, cell.c, cell.fg, cell.bg, x, y, pixels)
  {
    hide Want, InkAt, Geometry.InCell, Geometry.OnGrid;
    forall gx: nat, gy: nat | gx < geo.glyphWidth && gy < geo.glyphHeight
      ensures PixelIs(geo, font, canvas, cell.c, cell.fg, cell.bg, x, y, gx, gy, pixels)
    {
      Fundamental(gx, geo.scaleX);
      DivBound(gx, geo.fontWidth, geo.scaleX);
      WantAt(geo, font, canvas, cell, x, y, gy, gx / geo.scaleX, gx % geo.scaleX);
      geo.LineFits(x, y, gy);
    }
  }
}
