// The composition of src/App.tsx (lines 36-44): a brightness grid is split
// into binary layers and their masks become glyph layers.  The application
// draws those layers over each other on a canvas; here they are merged with
// mergeAsciiLayers instead, and these lemmas state what the merged glyph and
// the merged text show at a cell in terms of that cell's brightness.

module Pipeline {
  import opened ImageProcessor
  import opened AsciiGenerator

  /** binLayers.map(l => l.pixels) */
  function Masks(layers: seq<BinaryLayer>): seq<seq<seq<bool>>>
  {
    seq(|layers|, i requires 0 <= i < |layers| => layers[i].pixels)
  }

  /** A brightness grid of rows x cols cells, as processImage yields. */
  predicate IsGrid(pixels: seq<seq<ProcessedPixel>>, rows: nat, cols: nat)
  {
    |pixels| == rows && forall y :: 0 <= y < rows ==> |pixels[y]| == cols
  }

  /** Mask l of the decomposition has ink at (y, x) exactly when digit l + 1 of that cell's brightness is set. */
  lemma MaskInkIsDigit(pixels: seq<seq<ProcessedPixel>>, numLayers: int, rows: nat, cols: nat, l: nat, y: nat, x: nat)
    requires IsGrid(pixels, rows, cols) && l < numLayers && y < rows && x < cols
    ensures l < |Masks(Decompose(pixels, numLayers))|
    ensures InkAt(Masks(Decompose(pixels, numLayers))[l], y, x) <==> IsInk(pixels[y][x].brightness, l + 1)
  {
  }

  /** A merged cell shows a glyph exactly when some active layer L has binary digit L of the cell's brightness set. */
  lemma MergedCellShowsSetDigit(pixels: seq<seq<ProcessedPixel>>, numLayers: int, rows: nat, cols: nat,
                                active: set<int>, y: nat, x: nat)
    requires IsGrid(pixels, rows, cols) && y < rows && x < cols
    ensures MergedGlyph(GeneratedLayers(Masks(Decompose(pixels, numLayers)), rows, cols), active, y, x) != ' ' <==>
            exists layer :: 1 <= layer <= numLayers && layer in active && IsInk(pixels[y][x].brightness, layer)
  {
    var masks := Masks(Decompose(pixels, numLayers));
    MergeOfGeneratedLayers(masks, rows, cols, active, y, x);
    forall l | 0 <= l < |masks|
      ensures InkAt(masks[l], y, x) <==> IsInk(pixels[y][x].brightness, l + 1)
    {
      MaskInkIsDigit(pixels, numLayers, rows, cols, l, y, x);
    }
    if exists layer :: 1 <= layer <= numLayers && layer in active && IsInk(pixels[y][x].brightness, layer) {
      var layer :| 1 <= layer <= numLayers && layer in active && IsInk(pixels[y][x].brightness, layer);
      assert (layer - 1) + 1 in active && InkAt(masks[layer - 1], y, x);
    }
  }

  /** White cells and pure black cells both come out blank in the merged text, whatever layers are shown. */
  lemma WhiteAndBlackCellsStayBlank(pixels: seq<seq<ProcessedPixel>>, numLayers: int, rows: nat, cols: nat,
                                    active: set<int>, y: nat, x: nat)
    requires IsGrid(pixels, rows, cols) && y < rows && x < cols
    requires pixels[y][x].brightness == 0.0 || pixels[y][x].brightness == 1.0
    ensures MergedGlyph(GeneratedLayers(Masks(Decompose(pixels, numLayers)), rows, cols), active, y, x) == ' '
  {
    MergedCellShowsSetDigit(pixels, numLayers, rows, cols, active, y, x);
    forall layer | 1 <= layer <= numLayers
      ensures !IsInk(pixels[y][x].brightness, layer)
    {
      NoInkAtZeroBrightness(layer);
      NoInkAtFullBrightness(layer);
    }
  }

  /** With layers 1..n all shown, a cell is blank exactly when its first n digits rebuild to 0. */
  lemma MergedCellBlankIffNoDigits(pixels: seq<seq<ProcessedPixel>>, n: nat, rows: nat, cols: nat,
                                   active: set<int>, y: nat, x: nat)
    requires IsGrid(pixels, rows, cols) && y < rows && x < cols
    requires forall layer :: 1 <= layer <= n ==> layer in active
    ensures MergedGlyph(GeneratedLayers(Masks(Decompose(pixels, n)), rows, cols), active, y, x) == ' ' <==>
            Reconstruct(Digits(pixels[y][x].brightness, n)) == 0.0
  {
    var b := pixels[y][x].brightness;
    MergedCellShowsSetDigit(pixels, n, rows, cols, active, y, x);
    ReconstructPositive(b, n);
  }

  /** In the merged text block, the cell at (y, x) holds a glyph exactly when some active layer L has digit L of the cell's brightness set. */
  lemma MergedTextShowsSetDigit(pixels: seq<seq<ProcessedPixel>>, numLayers: int, rows: nat, cols: nat,
                                active: set<int>, y: nat, x: nat)
    requires IsGrid(pixels, rows, cols) && numLayers >= 1 && y < rows && x < cols
    ensures Mergeable(GeneratedLayers(Masks(Decompose(pixels, numLayers)), rows, cols), active)
    ensures LineStart(y, cols) + x < |Merged(GeneratedLayers(Masks(Decompose(pixels, numLayers)), rows, cols), active)|
    ensures Merged(GeneratedLayers(Masks(Decompose(pixels, numLayers)), rows, cols), active)[LineStart(y, cols) + x] != ' ' <==>
            exists layer :: 1 <= layer <= numLayers && layer in active && IsInk(pixels[y][x].brightness, layer)
  {
    var layers := GeneratedLayers(Masks(Decompose(pixels, numLayers)), rows, cols);
    GeneratedMergeable(Masks(Decompose(pixels, numLayers)), rows, cols, active);
    MergedCell(layers, active, y, x);
    MergedCellShowsSetDigit(pixels, numLayers, rows, cols, active, y, x);
  }
}
