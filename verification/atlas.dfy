/**
 * The glyph atlas of the emoji terrain: every glyph of the alphabet is drawn
 * into its own 256-pixel cell of a 2048 x 2048 canvas laid out as an 8 x 8
 * grid, and the fragment shader reads the same cell back from the tile's
 * `letterIdx` attribute.  Canvas coordinates run right and DOWN; the texture
 * is uploaded with three.js's default `flipY`, so texture coordinates run
 * right and UP.
 */
module GlyphAtlas {
  import opened Wrappers

  type Glyph = string

  /** The glyphs in atlas order (some entries are empty strings). */
  const Alphabet: seq<Glyph> := [
    "\U{263B}", "\U{2605}", "\U{2606}", "\U{2600}", "\U{2601}", "\U{2602}", "\U{2603}", "\U{2708}",
    "\U{2709}", "\U{2764}", "\U{2726}", "\U{2727}", "\U{2744}", "\U{262F}", "\U{262E}", "\U{2622}",
    "\U{2620}", "\U{2660}", "\U{2663}", "\U{2665}", "\U{2666}", "\U{266A}", "\U{2669}", "\U{266B}",
    "", "\U{2618}", "\U{2694}", "\U{2699}", "", "\U{2696}", "\U{2602}", "",
    "\U{271D}", "", "", "", "", "", "", "",
    "", "\U{2611}", "\U{2713}", "\U{2714}", "\U{2715}", "\U{2716}", "\U{2717}", "\U{2718}",
    "\U{2613}", "\U{2612}", "\U{272A}"
  ]

  const TexSize: nat := 2048
  const Dim: nat := 8
  const DimStep: nat := 256   // TexSize / Dim
  const Cells: nat := 64      // Dim * Dim

  /** Atlas column of glyph `i`. */
  function Column(i: nat): nat { i % Dim }

  /** Atlas row of glyph `i`, counted from the bottom of the texture. */
  function Row(i: nat): nat { i / Dim }

  /** The glyph index stored in atlas cell (`col`, `row`). */
  function CellIndex(col: nat, row: nat): nat { row * Dim + col }

  /** Glyph index to cell is a bijection from [0, 64) onto the 8 x 8 grid. */
  lemma CellInGrid(i: nat)
    requires i < Cells
    ensures Column(i) < Dim && Row(i) < Dim
    ensures CellIndex(Column(i), Row(i)) == i
  {
  }

  lemma CellIndexInverse(col: nat, row: nat)
    requires col < Dim && row < Dim
    ensures CellIndex(col, row) < Cells
    ensures Column(CellIndex(col, row)) == col && Row(CellIndex(col, row)) == row
  {
  }

  lemma CellInjective(i: nat, j: nat)
    requires Column(i) == Column(j) && Row(i) == Row(j)
    ensures i == j
  {
    assert i == CellIndex(Column(i), Row(i)) && j == CellIndex(Column(j), Row(j));
  }

  // ---------------------------------------------------------------------
  // Drawing the canvas

  /** Canvas pixel at which glyph `i` is centred (x right, y down). */
  function GlyphCentre(i: nat): (real, real)
  {
    ((Column(i) as real + 0.5) * DimStep as real,
     TexSize as real - (Row(i) as real + 0.5) * DimStep as real)
  }

  /** The centre lies strictly inside column `Column(i)`, and the flipped y
      lies strictly inside row `Row(i)` counted from the bottom, i.e. row
      `7 - Row(i)` of the canvas counted from the top. */
  lemma GlyphCentreInsideCell(i: nat)
    requires i < Cells
    ensures var (x, y) := GlyphCentre(i);
      && (Column(i) * DimStep) as real < x < ((Column(i) + 1) * DimStep) as real
      && (Row(i) * DimStep) as real < TexSize as real - y < ((Row(i) + 1) * DimStep) as real
      && ((Dim - 1 - Row(i)) * DimStep) as real < y < ((Dim - Row(i)) * DimStep) as real
  {
  }

  /** Index of the canvas cell containing pixel (x, y): row-from-top * 8 + column. */
  function CanvasCell(x: real, y: real): int
  {
    (y / DimStep as real).Floor * Dim + (x / DimStep as real).Floor
  }

  /** A pixel at fraction (fx, fy) of the cell in column `col` and row `top`
      (counted from the top) lies in canvas cell `top * 8 + col`. */
  lemma CanvasCellAt(col: int, top: int, fx: real, fy: real)
    requires 0.0 <= fx < 1.0 && 0.0 <= fy < 1.0
    ensures CanvasCell((col as real + fx) * 256.0, (top as real + fy) * 256.0) == top * 8 + col
  {
    var x, y := (col as real + fx) * 256.0, (top as real + fy) * 256.0;
    assert x / 256.0 == col as real + fx;
    assert y / 256.0 == top as real + fy;
    assert (x / 256.0).Floor == col;
    assert (y / 256.0).Floor == top;
  }

  /** The atlas index whose glyph lands in canvas cell `c` (row counted from the top). */
  function GlyphInCanvasCell(c: nat): nat
    requires c < Cells
  {
    CellIndex(c % Dim, Dim - 1 - c / Dim)
  }

  lemma CanvasCellOfCentre(i: nat)
    ensures var (x, y) := GlyphCentre(i);
      i < Cells ==> 0.0 <= x < TexSize as real && 0.0 <= y < TexSize as real
                    && 0 <= CanvasCell(x, y) < Cells
                    && GlyphInCanvasCell(CanvasCell(x, y)) == i
    ensures var (x, y) := GlyphCentre(i); i >= Cells ==> y < 0.0
  {
    if i < Cells {
      CellOfGlyphOnCanvas(i);
      var col, row := Column(i), Row(i);
      assert GlyphCentre(i) == ((col as real + 0.5) * 256.0, ((7 - row) as real + 0.5) * 256.0);
      CanvasCellAt(col, 7 - row, 0.5, 0.5);
    } else {
      assert Row(i) >= 8;
    }
  }

  /** Canvas cell `c` is the cell the centre of its own glyph falls in. */
  lemma GlyphInCanvasCellInverse(c: nat)
    requires c < Cells
    ensures GlyphInCanvasCell(c) < Cells
    ensures var (x, y) := GlyphCentre(GlyphInCanvasCell(c)); CanvasCell(x, y) == c
  {
    var col, row := c % 8, 7 - c / 8;
    CellIndexInverse(col, row);
    var i := CellIndex(col, row);
    assert i == GlyphInCanvasCell(c);
    assert GlyphCentre(i) == ((col as real + 0.5) * 256.0, ((c / 8) as real + 0.5) * 256.0);
    CanvasCellAt(col, c / 8, 0.5, 0.5);
    assert c == (c / 8) * 8 + col;
  }

  /** What the canvas holds after the drawing loop: every cell whose glyph
      index is below the alphabet size shows that glyph, the rest stay clear. */
  function AtlasImage(alphabet: seq<Glyph>): (image: seq<Option<Glyph>>)
    ensures |image| == Cells
  {
    seq(Cells, c requires 0 <= c < Cells =>
      var i := GlyphInCanvasCell(c);
      if i < |alphabet| then Some(alphabet[i]) else None)
  }

  /** The canvas loop: clear, then draw glyph `i` centred at `GlyphCentre(i)`
      for every glyph in order.  Glyphs past the 64th would be centred above
      the canvas and are clipped. */
  method DrawAtlas(alphabet: seq<Glyph>) returns (canvas: seq<Option<Glyph>>)
    ensures canvas == AtlasImage(alphabet)
  {
    var cells := new Option<Glyph>[Cells](_ => None);
    var i := 0;
    while i < |alphabet|
      invariant 0 <= i <= |alphabet|
      invariant forall c :: 0 <= c < Cells ==>
        cells[c] == (if GlyphInCanvasCell(c) < i then Some(alphabet[GlyphInCanvasCell(c)]) else None)
    {
      var (x, y) := GlyphCentre(i);
      CanvasCellOfCentre(i);
      forall c | 0 <= c < Cells && GlyphInCanvasCell(c) == i
        ensures c == CanvasCell(x, y)
      {
        GlyphInCanvasCellInverse(c);
      }
      if 0.0 <= x < TexSize as real && 0.0 <= y < TexSize as real {
        cells[CanvasCell(x, y)] := Some(alphabet[i]);
      }
      i := i + 1;
    }
    canvas := cells[..];
  }

  // ---------------------------------------------------------------------
  // Reading the atlas back in the fragment shader

  function GlslFloor(x: real): real { x.Floor as real }

  /** GLSL `mod(x, y) = x - y * floor(x / y)`. */
  function GlslMod(x: real, y: real): real
    requires y != 0.0
  {
    x - y * GlslFloor(x / y)
  }

  /** `mod(n, 8.)` of a whole number is a whole number in [0, 8). */
  lemma GlslModByDim(n: int)
    ensures 0.0 <= GlslMod(n as real, 8.0) < 8.0
    ensures GlslFloor(GlslMod(n as real, 8.0)) == GlslMod(n as real, 8.0)
  {
    var q := ((n as real) / 8.0).Floor;
    assert q as real <= (n as real) / 8.0 < q as real + 1.0;
    assert (q as real) * 8.0 <= n as real < (q as real) * 8.0 + 8.0;
    assert GlslMod(n as real, 8.0) == (n - 8 * q) as real;
  }

  /** The cell (u, v) the shader computes from the interpolated attribute:
      a whole column in [0, 8) and a whole row. */
  function ShaderCell(vLetterIdx: real): (cell: (real, real))
    ensures 0.0 <= cell.0 < 8.0
    ensures cell.0 == GlslFloor(cell.0) && cell.1 == GlslFloor(cell.1)
  {
    var n := (vLetterIdx + 0.1).Floor;
    var letterIdx := GlslFloor(vLetterIdx + 0.1);
    assert letterIdx == n as real;
    GlslModByDim(n);
    (GlslMod(letterIdx, 8.0), GlslFloor(letterIdx / 8.0))
  }

  lemma FloorOfSplit(q: int, r: int)
    requires 0 <= r < 8
    ensures ((q as real) + (r as real) / 8.0).Floor == q
  {
  }

  lemma RealDivByDim(i: nat)
    ensures GlslFloor((i as real) / 8.0) == (i / Dim) as real
  {
    var q, r := i / 8, i % 8;
    assert i == q * 8 + r;
    assert (i as real) == (q as real) * 8.0 + r as real;
    assert (i as real) / 8.0 == (q as real) + (r as real) / 8.0;
    FloorOfSplit(q, r);
  }

  /** The shader's cell for attribute value `i + e` is the cell the canvas
      loop used for glyph `i`, for any attribute error `e` in [-0.1, 0.9). */
  lemma ShaderMatchesCanvas(i: nat, e: real)
    requires -0.1 <= e < 0.9
    ensures ShaderCell(i as real + e) == (Column(i) as real, Row(i) as real)
  {
    assert (i as real + e + 0.1).Floor == i;
    RealDivByDim(i);
  }

  /** Canvas pixel sampled for attribute value `vLetterIdx` at plane uv
      (`mu`, `mv`): `(cell + uv) / 8` in texture space, flipped back to canvas
      space by the texture upload. */
  function SampledPixel(vLetterIdx: real, mu: real, mv: real): (real, real)
  {
    var (u, v) := ShaderCell(vLetterIdx);
    var s := (u + mu) * (1.0 / 8.0);
    var t := (v + mv) * (1.0 / 8.0);
    (s * TexSize as real, (1.0 - t) * TexSize as real)
  }

  /** The centre of the tile samples exactly the pixel the glyph was centred on. */
  lemma CentreSamplesGlyphCentre(i: nat)
    ensures SampledPixel(i as real, 0.5, 0.5) == GlyphCentre(i)
  {
    ShaderMatchesCanvas(i, 0.0);
    var u, v := Column(i) as real, Row(i) as real;
    assert ShaderCell(i as real) == (u, v);
    assert SampledPixel(i as real, 0.5, 0.5) == ((u + 0.5) * (1.0 / 8.0) * 2048.0, (1.0 - (v + 0.5) * (1.0 / 8.0)) * 2048.0);
  }

  /** Canvas cell `CellIndex(Column(i), 7 - Row(i))` is the one reserved for glyph `i`. */
  lemma CellOfGlyphOnCanvas(i: nat)
    requires i < Cells
    ensures Row(i) < Dim
    ensures CellIndex(Column(i), Dim - 1 - Row(i)) < Cells
    ensures GlyphInCanvasCell(CellIndex(Column(i), Dim - 1 - Row(i))) == i
  {
    CellInGrid(i);
    CellIndexInverse(Column(i), 7 - Row(i));
  }

  /** The pixel sampled at uv (mu, mv) of the cell (u, v) the shader computed. */
  lemma SampledPixelOfCell(vLetterIdx: real, u: real, v: real, mu: real, mv: real)
    requires ShaderCell(vLetterIdx) == (u, v)
    ensures SampledPixel(vLetterIdx, mu, mv) == ((u + mu) * 256.0, ((7.0 - v) + (1.0 - mv)) * 256.0)
  {
    assert (u + mu) * (1.0 / 8.0) * 2048.0 == (u + mu) * 256.0;
    assert (1.0 - (v + mv) * (1.0 / 8.0)) * 2048.0 == ((7.0 - v) + (1.0 - mv)) * 256.0;
  }

  /** Every uv of the tile plane for glyph `i` samples a pixel of that
      glyph's canvas cell. */
  lemma SampledCell(i: nat, mu: real, mv: real)
    requires i < Cells
    requires 0.0 <= mu < 1.0 && 0.0 < mv <= 1.0
    ensures Row(i) < Dim
    ensures var (px, py) := SampledPixel(i as real, mu, mv);
      CanvasCell(px, py) == CellIndex(Column(i), Dim - 1 - Row(i))
  {
    CellInGrid(i);
    ShaderMatchesCanvas(i, 0.0);
    var col, row := Column(i), Row(i);
    SampledPixelOfCell(i as real, col as real, row as real, mu, mv);
    assert 7.0 - row as real == (7 - row) as real;
    CanvasCellAt(col, 7 - row, mu, 1.0 - mv);
  }

  /** Every uv of the tile plane samples the canvas cell glyph `i` was drawn
      into, which holds `alphabet[i]`. */
  lemma SampleReadsDrawnGlyph(alphabet: seq<Glyph>, i: nat, mu: real, mv: real)
    requires i < |alphabet| && i < Cells
    requires 0.0 <= mu < 1.0 && 0.0 < mv <= 1.0
    ensures var (px, py) := SampledPixel(i as real, mu, mv);
      && 0 <= CanvasCell(px, py) < Cells
      && AtlasImage(alphabet)[CanvasCell(px, py)] == Some(alphabet[i])
  {
    SampledCell(i, mu, mv);
    CellOfGlyphOnCanvas(i);
  }

  // ---------------------------------------------------------------------
  // Per-tile glyph choice

  /** three.js `MathUtils.randInt(low, high)` for the draw `r` of `Math.random()`. */
  function RandInt(low: int, high: int, r: real): (k: int)
    requires low <= high && 0.0 <= r < 1.0
    ensures low <= k <= high
  {
    var n := (high - low + 1) as real;
    assert 0.0 <= r * n < n by {
      assert r * n <= 1.0 * n;
      assert n - r * n == (1.0 - r) * n;
    }
    low + (r * n).Floor
  }

  /** The `letterIndices` attribute: one random glyph index per tile. */
  function LetterIndices(draws: seq<real>): (indices: seq<int>)
    requires forall k :: 0 <= k < |draws| ==> 0.0 <= draws[k] < 1.0
    ensures |indices| == |draws|
    ensures forall k :: 0 <= k < |draws| ==> 0 <= indices[k] < |Alphabet| <= Cells
  {
    seq(|draws|, k requires 0 <= k < |draws| => RandInt(0, |Alphabet| - 1, draws[k]))
  }

  /** Every tile's glyph index addresses a drawn cell of the atlas, and the
      shader reads that tile's own glyph back. */
  lemma EveryTileShowsItsGlyph(draws: seq<real>, k: nat, mu: real, mv: real)
    requires forall j :: 0 <= j < |draws| ==> 0.0 <= draws[j] < 1.0
    requires k < |draws|
    requires 0.0 <= mu < 1.0 && 0.0 < mv <= 1.0
    ensures var i := LetterIndices(draws)[k];
      var (px, py) := SampledPixel(i as real, mu, mv);
      && 0 <= CanvasCell(px, py) < Cells
      && AtlasImage(Alphabet)[CanvasCell(px, py)] == Some(Alphabet[i])
  {
    var i := LetterIndices(draws)[k];
    SampleReadsDrawnGlyph(Alphabet, i, mu, mv);
  }
}
