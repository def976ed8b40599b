// Model of src/utils/asciiGenerator.ts: the glyph layers built from the binary
// layers (generateAsciiLayers) and their merge into one text block
// (mergeAsciiLayers), together with the opacity rule m^L used when the layers
// are drawn over each other.  Grid cells are characters.

// The text of SAMPLE_TEXT (asciiGenerator.ts, line 1), in a module of its own
// so that facts about its characters are checked apart from everything else.
module SampleText {
  /** The text whose characters fill the ink cells, in reading order, cyclically.
      Written in pieces so that facts about single characters stay cheap to check. */
  const SAMPLE_TEXT: string :=
    "我輩は猫である。名" +
    "前はまだ無い。どこ" +
    "で生れたかとんと見" +
    "当がつかぬ。何でも" +
    "薄暗いじめじめした" +
    "所でニャーニャー泣" +
    "いていた事だけは記" +
    "憶している。吾輩は" +
    "ここで始めて人間と" +
    "いうものを見た。"

  /** None of the pieces holds a blank. */
  lemma NoBlankInPieces()
    ensures ' ' !in "我輩は猫である。名" &&
            ' ' !in "前はまだ無い。どこ" &&
            ' ' !in "で生れたかとんと見" &&
            ' ' !in "当がつかぬ。何でも" &&
            ' ' !in "薄暗いじめじめした" &&
            ' ' !in "所でニャーニャー泣" &&
            ' ' !in "いていた事だけは記" &&
            ' ' !in "憶している。吾輩は" &&
            ' ' !in "ここで始めて人間と" &&
            ' ' !in "いうものを見た。"
  {
  }

  /** The sample text never contains the blank that marks an empty cell. */
  lemma SampleTextHasNoBlank()
    ensures ' ' !in SAMPLE_TEXT
  {
    NoBlankInPieces();
  }

  lemma SampleTextLength()
    ensures |SAMPLE_TEXT| == 89
  {
  }
}

module AsciiGenerator {
  import ImageProcessor
  import opened SampleText

  /** Layer number `layer` (1-based), its glyph grid and its drawing opacity. */
  datatype AsciiLayer = AsciiLayer(layer: int, text: seq<seq<char>>, opacity: real)

  // ---------------------------------------------------------------------------
  // Opacity
  // ---------------------------------------------------------------------------

  /** Math.pow(m, n) for a natural exponent. */
  function Power(m: real, n: nat): real
  {
    if n == 0 then 1.0 else m * Power(m, n - 1)
  }

  /** For a multiplier in [0, 1] the opacity m^L stays in [0, 1] and fades with depth. */
  lemma {:induction false} OpacityFades(m: real, layer: nat)
    requires 0.0 <= m <= 1.0
    ensures 0.0 <= Power(m, layer + 1) <= Power(m, layer) <= 1.0
  {
    if layer > 0 {
      OpacityFades(m, layer - 1);
    }
    var p := Power(m, layer);
    assert 0.0 <= m * p <= p by {
      assert 0.0 <= p;
    }
  }

  /** With the multiplier 1/2, layer L is drawn with the weight 2^-L of its binary digit. */
  lemma {:induction false} HalfOpacityIsWeight(layer: nat)
    ensures Power(0.5, layer) == ImageProcessor.Weight(layer)
  {
    if layer > 0 {
      HalfOpacityIsWeight(layer - 1);
    }
  }

  // ---------------------------------------------------------------------------
  // Counting ink cells in scan order
  // ---------------------------------------------------------------------------

  /** `layer[y] && layer[y][x]`: a cell outside the mask counts as no ink. */
  predicate InkAt(mask: seq<seq<bool>>, y: int, x: int)
  {
    0 <= y < |mask| && 0 <= x < |mask[y]| && mask[y][x]
  }

  /** Ink cells of row y left of column x. */
  function RowInk(mask: seq<seq<bool>>, y: int, x: nat): nat
  {
    if x == 0 then 0 else RowInk(mask, y, x - 1) + (if InkAt(mask, y, x - 1) then 1 else 0)
  }

  /** Ink cells of the first y rows, columns 0..cols-1. */
  function GridInk(mask: seq<seq<bool>>, y: nat, cols: nat): nat
  {
    if y == 0 then 0 else GridInk(mask, y - 1, cols) + RowInk(mask, y - 1, cols)
  }

  /** Ink cells of the first l masks over a rows x cols grid. */
  function StackInk(masks: seq<seq<seq<bool>>>, l: nat, rows: nat, cols: nat): nat
    requires l <= |masks|
  {
    if l == 0 then 0 else StackInk(masks, l - 1, rows, cols) + GridInk(masks[l - 1], rows, cols)
  }

  /** Ink cells met before cell (y, x) of mask l in scan order: the text cursor at that cell. */
  function InkBefore(masks: seq<seq<seq<bool>>>, rows: nat, cols: nat, l: nat, y: nat, x: nat): nat
    requires l < |masks|
  {
    StackInk(masks, l, rows, cols) + GridInk(masks[l], y, cols) + RowInk(masks[l], y, x)
  }

  function TotalInk(masks: seq<seq<seq<bool>>>, rows: nat, cols: nat): nat
  {
    StackInk(masks, |masks|, rows, cols)
  }

  /** (l1, y1, x1) comes before (l2, y2, x2): layer by layer, row by row, left to right. */
  predicate ScanBefore(l1: nat, y1: nat, x1: nat, l2: nat, y2: nat, x2: nat)
  {
    l1 < l2 || (l1 == l2 && (y1 < y2 || (y1 == y2 && x1 < x2)))
  }

  lemma {:induction false} RowInkMonotone(mask: seq<seq<bool>>, y: int, x1: nat, x2: nat)
    requires x1 <= x2
    ensures RowInk(mask, y, x1) + (if InkAt(mask, y, x1) && x1 < x2 then 1 else 0) <= RowInk(mask, y, x2)
    decreases x2
  {
    if x1 < x2 {
      RowInkMonotone(mask, y, x1, x2 - 1);
    }
  }

  lemma {:induction false} GridInkMonotone(mask: seq<seq<bool>>, y1: nat, y2: nat, cols: nat)
    requires y1 <= y2
    ensures GridInk(mask, y1, cols) <= GridInk(mask, y2, cols)
    decreases y2
  {
    if y1 < y2 {
      GridInkMonotone(mask, y1, y2 - 1, cols);
    }
  }

  lemma {:induction false} StackInkMonotone(masks: seq<seq<seq<bool>>>, l1: nat, l2: nat, rows: nat, cols: nat)
    requires l1 <= l2 <= |masks|
    ensures StackInk(masks, l1, rows, cols) <= StackInk(masks, l2, rows, cols)
    decreases l2
  {
    if l1 < l2 {
      StackInkMonotone(masks, l1, l2 - 1, rows, cols);
    }
  }

  /** An ink cell at (y, x) in a rows x cols grid is followed by its own count before the grid ends. */
  lemma InkCellWithinGrid(mask: seq<seq<bool>>, rows: nat, cols: nat, y: nat, x: nat)
    requires y < rows && x < cols && InkAt(mask, y, x)
    ensures GridInk(mask, y, cols) + RowInk(mask, y, x) < GridInk(mask, y + 1, cols)
    ensures GridInk(mask, y + 1, cols) <= GridInk(mask, rows, cols)
  {
    RowInkMonotone(mask, y, x, cols);
    GridInkMonotone(mask, y + 1, rows, cols);
  }

  /** Each ink cell's text index lies below the total count of ink cells. */
  lemma InkBeforeBelowTotal(masks: seq<seq<seq<bool>>>, rows: nat, cols: nat, l: nat, y: nat, x: nat)
    requires l < |masks| && y < rows && x < cols && InkAt(masks[l], y, x)
    ensures InkBefore(masks, rows, cols, l, y, x) < StackInk(masks, l + 1, rows, cols)
    ensures InkBefore(masks, rows, cols, l, y, x) < TotalInk(masks, rows, cols)
  {
    InkCellWithinGrid(masks[l], rows, cols, y, x);
    StackInkMonotone(masks, l + 1, |masks|, rows, cols);
  }

  /** Ink cells receive strictly increasing text indices in scan order: no index is used twice. */
  lemma InkBeforeIncreasing(masks: seq<seq<seq<bool>>>, rows: nat, cols: nat,
                            l1: nat, y1: nat, x1: nat, l2: nat, y2: nat, x2: nat)
    requires l1 < |masks| && y1 < rows && x1 < cols
    requires l2 < |masks| && y2 < rows && x2 < cols
    requires InkAt(masks[l1], y1, x1) && ScanBefore(l1, y1, x1, l2, y2, x2)
    ensures InkBefore(masks, rows, cols, l1, y1, x1) < InkBefore(masks, rows, cols, l2, y2, x2)
  {
    if l1 < l2 {
      InkBeforeBelowTotal(masks, rows, cols, l1, y1, x1);
      StackInkMonotone(masks, l1 + 1, l2, rows, cols);
    } else if y1 < y2 {
      InkCellWithinGrid(masks[l1], rows, cols, y1, x1);
      GridInkMonotone(masks[l1], y1 + 1, y2, cols);
    } else {
      RowInkMonotone(masks[l1], y1, x1, x2);
    }
  }

  lemma {:induction false} RowIndexUsed(mask: seq<seq<bool>>, y: nat, x: nat, k: nat)
    requires k < RowInk(mask, y, x)
    ensures exists xx :: 0 <= xx < x && InkAt(mask, y, xx) && RowInk(mask, y, xx) == k
  {
    if k < RowInk(mask, y, x - 1) {
      RowIndexUsed(mask, y, x - 1, k);
    } else {
      assert InkAt(mask, y, x - 1) && RowInk(mask, y, x - 1) == k;
    }
  }

  lemma {:induction false} GridIndexUsed(mask: seq<seq<bool>>, y: nat, cols: nat, k: nat)
    requires k < GridInk(mask, y, cols)
    ensures exists yy, xx :: 0 <= yy < y && 0 <= xx < cols && InkAt(mask, yy, xx) &&
              GridInk(mask, yy, cols) + RowInk(mask, yy, xx) == k
  {
    if k < GridInk(mask, y - 1, cols) {
      GridIndexUsed(mask, y - 1, cols, k);
    } else {
      var kk: nat := k - GridInk(mask, y - 1, cols);
      RowIndexUsed(mask, y - 1, cols, kk);
      var xx :| 0 <= xx < cols && InkAt(mask, y - 1, xx) && RowInk(mask, y - 1, xx) == kk;
      assert GridInk(mask, y - 1, cols) + RowInk(mask, y - 1, xx) == k;
    }
  }

  /** Every text index below the ink count of the first l layers is given to exactly one ink cell. */
  lemma {:induction false} EveryIndexUsed(masks: seq<seq<seq<bool>>>, rows: nat, cols: nat, l: nat, k: nat)
    requires l <= |masks| && k < StackInk(masks, l, rows, cols)
    ensures exists ll, yy, xx :: 0 <= ll < l && 0 <= yy < rows && 0 <= xx < cols &&
              InkAt(masks[ll], yy, xx) && InkBefore(masks, rows, cols, ll, yy, xx) == k
  {
    if k < StackInk(masks, l - 1, rows, cols) {
      EveryIndexUsed(masks, rows, cols, l - 1, k);
    } else {
      var kk: nat := k - StackInk(masks, l - 1, rows, cols);
      GridIndexUsed(masks[l - 1], rows, cols, kk);
      var yy, xx :| 0 <= yy < rows && 0 <= xx < cols && InkAt(masks[l - 1], yy, xx) &&
                    GridInk(masks[l - 1], yy, cols) + RowInk(masks[l - 1], yy, xx) == kk;
      assert InkBefore(masks, rows, cols, l - 1, yy, xx) == k;
    }
  }

  // ---------------------------------------------------------------------------
  // generateAsciiLayers
  // ---------------------------------------------------------------------------

  /** The glyph of cell (y, x) in layer l: the next text character on ink, a blank elsewhere. */
  function Glyph(masks: seq<seq<seq<bool>>>, rows: nat, cols: nat, l: nat, y: nat, x: nat): (g: char)
    requires l < |masks|
    ensures g != ' ' <==> InkAt(masks[l], y, x)
  {
    SampleTextHasNoBlank();
    if InkAt(masks[l], y, x) then SAMPLE_TEXT[InkBefore(masks, rows, cols, l, y, x) % |SAMPLE_TEXT|] else ' '
  }

  function GlyphRow(masks: seq<seq<seq<bool>>>, rows: nat, cols: nat, l: nat, y: nat): seq<char>
    requires l < |masks|
  {
    seq(cols, x requires 0 <= x < cols => Glyph(masks, rows, cols, l, y, x))
  }

  function GlyphGrid(masks: seq<seq<seq<bool>>>, rows: nat, cols: nat, l: nat): seq<seq<char>>
    requires l < |masks|
  {
    seq(rows, y requires 0 <= y < rows => GlyphRow(masks, rows, cols, l, y))
  }

  /** The glyph layers of a stack of binary masks. */
  function GeneratedLayers(masks: seq<seq<seq<bool>>>, rows: nat, cols: nat): seq<AsciiLayer>
  {
    seq(|masks|, l requires 0 <= l < |masks| => AsciiLayer(l + 1, GlyphGrid(masks, rows, cols, l), Power(0.5, l + 1)))
  }

  /** Shape and cells of the generated layers: the glyph is non-blank exactly on ink, and there it is the text character at the cell's scan-order index. */
  lemma GeneratedLayersCells(masks: seq<seq<seq<bool>>>, rows: nat, cols: nat)
    ensures |GeneratedLayers(masks, rows, cols)| == |masks|
    ensures forall l :: 0 <= l < |masks| ==>
              GeneratedLayers(masks, rows, cols)[l].layer == l + 1 &&
              GeneratedLayers(masks, rows, cols)[l].opacity == ImageProcessor.Weight(l + 1) &&
              |GeneratedLayers(masks, rows, cols)[l].text| == rows
    ensures forall l, y :: 0 <= l < |masks| && 0 <= y < rows ==> |GeneratedLayers(masks, rows, cols)[l].text[y]| == cols
    ensures forall l, y, x :: 0 <= l < |masks| && 0 <= y < rows && 0 <= x < cols ==>
              (GeneratedLayers(masks, rows, cols)[l].text[y][x] != ' ' <==> InkAt(masks[l], y, x)) &&
              (InkAt(masks[l], y, x) ==>
                 GeneratedLayers(masks, rows, cols)[l].text[y][x] ==
                 SAMPLE_TEXT[InkBefore(masks, rows, cols, l, y, x) % |SAMPLE_TEXT|])
  {
    forall l | 0 <= l < |masks|
      ensures GeneratedLayers(masks, rows, cols)[l].opacity == ImageProcessor.Weight(l + 1)
    {
      HalfOpacityIsWeight(l + 1);
    }
  }

  lemma GlyphRowExtend(masks: seq<seq<seq<bool>>>, rows: nat, cols: nat, l: nat, y: nat, x: nat, row: seq<char>)
    requires l < |masks| && x < cols
    requires row == GlyphRow(masks, rows, cols, l, y)[..x]
    ensures row + [Glyph(masks, rows, cols, l, y, x)] == GlyphRow(masks, rows, cols, l, y)[..x + 1]
  {
    var full := GlyphRow(masks, rows, cols, l, y);
    assert full[x] == Glyph(masks, rows, cols, l, y, x);
    assert full[..x + 1] == full[..x] + [full[x]];
  }

  lemma GlyphGridExtend(masks: seq<seq<seq<bool>>>, rows: nat, cols: nat, l: nat, y: nat, grid: seq<seq<char>>)
    requires l < |masks| && y < rows
    requires grid == GlyphGrid(masks, rows, cols, l)[..y]
    ensures grid + [GlyphRow(masks, rows, cols, l, y)] == GlyphGrid(masks, rows, cols, l)[..y + 1]
  {
  }

  lemma GeneratedLayersExtend(masks: seq<seq<seq<bool>>>, rows: nat, cols: nat, l: nat, layers: seq<AsciiLayer>)
    requires l < |masks|
    requires layers == GeneratedLayers(masks, rows, cols)[..l]
    ensures layers + [AsciiLayer(l + 1, GlyphGrid(masks, rows, cols, l), Power(0.5, l + 1))]
            == GeneratedLayers(masks, rows, cols)[..l + 1]
  {
  }

  /** generateAsciiLayers: one rows x cols glyph grid per binary mask, the text running on across masks.
      The final value of the text cursor is returned as well, so that what it counts can be stated. */
  method GenerateAsciiLayers(binaryLayers: seq<seq<seq<bool>>>, gridRows: nat, gridCols: nat)
    returns (asciiLayers: seq<AsciiLayer>, textIndex: nat)
    ensures asciiLayers == GeneratedLayers(binaryLayers, gridRows, gridCols)
    ensures textIndex == TotalInk(binaryLayers, gridRows, gridCols)
  {
    asciiLayers := [];
    textIndex := 0;
    var layerIndex := 0;
    while layerIndex < |binaryLayers|
      invariant 0 <= layerIndex <= |binaryLayers|
      invariant asciiLayers == GeneratedLayers(binaryLayers, gridRows, gridCols)[..layerIndex]
      invariant textIndex == StackInk(binaryLayers, layerIndex, gridRows, gridCols)
    {
      var layer := binaryLayers[layerIndex];
      var textGrid: seq<seq<char>> := [];
      var opacity := Power(0.5, layerIndex + 1);
      var y := 0;
      while y < gridRows
        invariant 0 <= y <= gridRows
        invariant textGrid == GlyphGrid(binaryLayers, gridRows, gridCols, layerIndex)[..y]
        invariant textIndex == StackInk(binaryLayers, layerIndex, gridRows, gridCols) + GridInk(layer, y, gridCols)
      {
        var row: seq<char> := [];
        var x := 0;
        while x < gridCols
          invariant 0 <= x <= gridCols
          invariant row == GlyphRow(binaryLayers, gridRows, gridCols, layerIndex, y)[..x]
          invariant textIndex == InkBefore(binaryLayers, gridRows, gridCols, layerIndex, y, x)
        {
          GlyphRowExtend(binaryLayers, gridRows, gridCols, layerIndex, y, x, row);
          if y < |layer| && x < |layer[y]| && layer[y][x] {
            row := row + [SAMPLE_TEXT[textIndex % |SAMPLE_TEXT|]];
            textIndex := textIndex + 1;
          } else {
            row := row + [' '];
          }
          x := x + 1;
        }
        assert row == GlyphRow(binaryLayers, gridRows, gridCols, layerIndex, y);
        GlyphGridExtend(binaryLayers, gridRows, gridCols, layerIndex, y, textGrid);
        textGrid := textGrid + [row];
        y := y + 1;
      }
      assert textGrid == GlyphGrid(binaryLayers, gridRows, gridCols, layerIndex);
      GeneratedLayersExtend(binaryLayers, gridRows, gridCols, layerIndex, asciiLayers);
      asciiLayers := asciiLayers + [AsciiLayer(layerIndex + 1, textGrid, opacity)];
      layerIndex := layerIndex + 1;
    }
  }

  // ---------------------------------------------------------------------------
  // mergeAsciiLayers
  // ---------------------------------------------------------------------------

  /** Layer `layer` shows a glyph at (y, x): it is switched on and its cell there is not blank. */
  predicate Visible(layer: AsciiLayer, active: set<int>, y: int, x: int)
  {
    layer.layer in active && 0 <= y < |layer.text| && 0 <= x < |layer.text[y]| && layer.text[y][x] != ' '
  }

  /** Index of the first layer in list order visible at (y, x); |layers| when none is. */
  function TopLayer(layers: seq<AsciiLayer>, active: set<int>, y: int, x: int): (i: nat)
    ensures i <= |layers|
    ensures i < |layers| ==> Visible(layers[i], active, y, x)
    ensures forall j :: 0 <= j < i ==> !Visible(layers[j], active, y, x)
  {
    if |layers| == 0 then 0
    else if Visible(layers[0], active, y, x) then 0
    else 1 + TopLayer(layers[1..], active, y, x)
  }

  /** The merged glyph at (y, x): that of the first visible layer, a blank when none shows one. */
  function MergedGlyph(layers: seq<AsciiLayer>, active: set<int>, y: int, x: int): char
  {
    var i := TopLayer(layers, active, y, x);
    if i < |layers| then layers[i].text[y][x] else ' '
  }

  /** The merged cell is blank exactly when no active layer has a glyph there. */
  lemma MergedBlankIffNoneVisible(layers: seq<AsciiLayer>, active: set<int>, y: int, x: int)
    ensures MergedGlyph(layers, active, y, x) == ' ' <==>
            forall i :: 0 <= i < |layers| ==> !Visible(layers[i], active, y, x)
  {
  }

  /** Layers listed below the first visible one do not affect the merged glyph. */
  lemma LayersBelowTopIgnored(layers: seq<AsciiLayer>, more: seq<AsciiLayer>, active: set<int>, y: int, x: int)
    requires TopLayer(layers, active, y, x) < |layers|
    ensures MergedGlyph(layers + more, active, y, x) == MergedGlyph(layers, active, y, x)
  {
    var i := TopLayer(layers, active, y, x);
    var k := TopLayer(layers + more, active, y, x);
    assert (layers + more)[i] == layers[i];
  }

  /** Start of line y in text whose lines are `width` characters long and end in a newline. */
  function LineStart(y: nat, width: nat): nat
  {
    if y == 0 then 0 else LineStart(y - 1, width) + width + 1
  }

  /** Array.prototype.join with the separator "\n". */
  function JoinLines(lines: seq<string>): string
  {
    if |lines| == 0 then ""
    else if |lines| == 1 then lines[0]
    else lines[0] + "\n" + JoinLines(lines[1..])
  }

  /** Joining n lines of equal width gives n line starts' worth of text, less the missing final newline. */
  lemma {:induction false} JoinLinesLength(lines: seq<string>, width: nat)
    requires |lines| >= 1
    requires forall y :: 0 <= y < |lines| ==> |lines[y]| == width
    ensures |JoinLines(lines)| == LineStart(|lines|, width) - 1
  {
    if |lines| > 1 {
      JoinLinesLength(lines[1..], width);
      LineStartShift(|lines|, width);
    }
  }

  /** Character x of line y sits at the start of line y plus x. */
  lemma {:induction false} JoinLinesCell(lines: seq<string>, width: nat, y: nat, x: nat)
    requires y < |lines| && x < width
    requires forall i :: 0 <= i < |lines| ==> |lines[i]| == width
    ensures LineStart(y, width) + x < |JoinLines(lines)|
    ensures JoinLines(lines)[LineStart(y, width) + x] == lines[y][x]
    decreases y
  {
    JoinLinesLength(lines, width);
    LineStartMonotone(y + 1, |lines|, width);
    if y > 0 {
      JoinLinesCell(lines[1..], width, y - 1, x);
      LineStartShift(y, width);
    }
  }

  /** Every line but the last is followed by a newline. */
  lemma {:induction false} JoinLinesBreak(lines: seq<string>, width: nat, y: nat)
    requires y + 1 < |lines|
    requires forall i :: 0 <= i < |lines| ==> |lines[i]| == width
    ensures LineStart(y, width) + width < |JoinLines(lines)|
    ensures JoinLines(lines)[LineStart(y, width) + width] == '\n'
    decreases y
  {
    JoinLinesLength(lines, width);
    LineStartMonotone(y + 1, |lines|, width);
    if y > 0 {
      JoinLinesBreak(lines[1..], width, y - 1);
      LineStartShift(y, width);
    }
  }

  lemma {:induction false} LineStartShift(y: nat, width: nat)
    requires y >= 1
    ensures LineStart(y, width) == width + 1 + LineStart(y - 1, width)
  {
  }

  lemma {:induction false} LineStartMonotone(y1: nat, y2: nat, width: nat)
    requires y1 <= y2
    ensures LineStart(y1, width) + (y2 - y1) * (width + 1) == LineStart(y2, width)
    decreases y2
  {
    if y1 < y2 {
      LineStartMonotone(y1, y2 - 1, width);
    }
  }

  /** The rows x cols grid of merged glyphs. */
  function MergedLines(layers: seq<AsciiLayer>, active: set<int>, rows: nat, cols: nat): seq<string>
  {
    seq(rows, y requires 0 <= y < rows => seq(cols, x requires 0 <= x < cols => MergedGlyph(layers, active, y, x)))
  }

  /** The grid size is read off the first layer. */
  function Rows(layers: seq<AsciiLayer>): nat
    requires |layers| > 0
  {
    |layers[0].text|
  }

  function Cols(layers: seq<AsciiLayer>): nat
    requires |layers| > 0 && |layers[0].text| > 0
  {
    |layers[0].text[0]|
  }

  /** Every active layer has a glyph grid of at least rows x cols. */
  predicate ActiveLayersCover(layers: seq<AsciiLayer>, active: set<int>, rows: nat, cols: nat)
  {
    forall i :: 0 <= i < |layers| && layers[i].layer in active ==>
      |layers[i].text| >= rows && forall y :: 0 <= y < rows ==> |layers[i].text[y]| >= cols
  }

  /** What mergeAsciiLayers may be called with: a first layer with at least one row, and active layers covering its size. */
  predicate Mergeable(layers: seq<AsciiLayer>, active: set<int>)
  {
    |layers| > 0 ==> |layers[0].text| > 0 && ActiveLayersCover(layers, active, Rows(layers), Cols(layers))
  }

  /** The merged text block: no text for no layers, else the merged rows joined by newlines. */
  function Merged(layers: seq<AsciiLayer>, active: set<int>): string
    requires Mergeable(layers, active)
  {
    if |layers| == 0 then "" else JoinLines(MergedLines(layers, active, Rows(layers), Cols(layers)))
  }

  /** The merged block has Rows lines of Cols characters, separated by newlines. */
  lemma MergedLength(layers: seq<AsciiLayer>, active: set<int>)
    requires Mergeable(layers, active) && |layers| > 0
    ensures |Merged(layers, active)| == LineStart(Rows(layers), Cols(layers)) - 1
  {
    JoinLinesLength(MergedLines(layers, active, Rows(layers), Cols(layers)), Cols(layers));
  }

  /** Cell (y, x) of the merged block shows the first visible layer's glyph there. */
  lemma MergedCell(layers: seq<AsciiLayer>, active: set<int>, y: nat, x: nat)
    requires Mergeable(layers, active) && |layers| > 0
    requires y < Rows(layers) && x < Cols(layers)
    ensures LineStart(y, Cols(layers)) + x < |Merged(layers, active)|
    ensures Merged(layers, active)[LineStart(y, Cols(layers)) + x] == MergedGlyph(layers, active, y, x)
  {
    JoinLinesCell(MergedLines(layers, active, Rows(layers), Cols(layers)), Cols(layers), y, x);
  }

  /** Each merged row but the last ends in a newline. */
  lemma MergedLineBreak(layers: seq<AsciiLayer>, active: set<int>, y: nat)
    requires Mergeable(layers, active) && |layers| > 0
    requires y + 1 < Rows(layers)
    ensures LineStart(y, Cols(layers)) + Cols(layers) < |Merged(layers, active)|
    ensures Merged(layers, active)[LineStart(y, Cols(layers)) + Cols(layers)] == '\n'
  {
    JoinLinesBreak(MergedLines(layers, active, Rows(layers), Cols(layers)), Cols(layers), y);
  }

  /** mergeAsciiLayers: per cell, the glyph of the first active layer with a non-blank glyph there. */
  method MergeAsciiLayers(asciiLayers: seq<AsciiLayer>, activeLayers: set<int>) returns (merged: string)
    requires Mergeable(asciiLayers, activeLayers)
    ensures merged == Merged(asciiLayers, activeLayers)
  {
    if |asciiLayers| == 0 {
      return "";
    }
    var rows := |asciiLayers[0].text|;
    var cols := |asciiLayers[0].text[0]|;
    var result: seq<string> := [];
    var y := 0;
    while y < rows
      invariant 0 <= y <= rows
      invariant result == MergedLines(asciiLayers, activeLayers, rows, cols)[..y]
    {
      var row := "";
      var x := 0;
      while x < cols
        invariant 0 <= x <= cols
        invariant row == MergedLines(asciiLayers, activeLayers, rows, cols)[y][..x]
      {
        var ch := ' ';
        var k := 0;
        while k < |asciiLayers|
          invariant 0 <= k <= |asciiLayers|
          invariant forall j :: 0 <= j < k ==> !Visible(asciiLayers[j], activeLayers, y, x)
        {
          var layer := asciiLayers[k];
          if layer.layer in activeLayers && layer.text[y][x] != ' ' {
            ch := layer.text[y][x];
            assert ch == MergedGlyph(asciiLayers, activeLayers, y, x);
            break;
          }
          k := k + 1;
        }
        assert ch == MergedGlyph(asciiLayers, activeLayers, y, x);
        row := row + [ch];
        x := x + 1;
      }
      assert row == MergedLines(asciiLayers, activeLayers, rows, cols)[y];
      result := result + [row];
      y := y + 1;
    }
    assert result == MergedLines(asciiLayers, activeLayers, rows, cols);
    merged := JoinLines(result);
  }

  /** A layer that is switched off never contributes: dropping it leaves every merged cell unchanged. */
  lemma InactiveLayerIgnored(layers: seq<AsciiLayer>, active: set<int>, i: nat, y: int, x: int)
    requires i < |layers| && layers[i].layer !in active
    ensures MergedGlyph(layers[..i] + layers[i + 1..], active, y, x) == MergedGlyph(layers, active, y, x)
  {
    var rest := layers[..i] + layers[i + 1..];
    var t := TopLayer(layers, active, y, x);
    var u := TopLayer(rest, active, y, x);
    assert !Visible(layers[i], active, y, x);
    if t < i {
      assert rest[t] == layers[t];
    } else {
      forall j | 0 <= j < i
        ensures !Visible(rest[j], active, y, x)
      {
        assert rest[j] == layers[j];
      }
      forall j | i <= j < t - 1
        ensures !Visible(rest[j], active, y, x)
      {
        assert rest[j] == layers[j + 1];
      }
      if t < |layers| {
        assert rest[t - 1] == layers[t];
      }
      assert u == t - 1;
    }
  }

  /** The layers from generateAsciiLayers: a layer is visible at a cell exactly when it is active and its mask has ink there. */
  lemma GeneratedVisibleIffInk(masks: seq<seq<seq<bool>>>, rows: nat, cols: nat, active: set<int>, l: nat, y: nat, x: nat)
    requires l < |masks| && y < rows && x < cols
    ensures Visible(GeneratedLayers(masks, rows, cols)[l], active, y, x) <==> l + 1 in active && InkAt(masks[l], y, x)
  {
    GeneratedLayersCells(masks, rows, cols);
  }

  /** Merging generated layers shows, at each cell, the glyph of the first active layer whose mask has ink there. */
  lemma MergeOfGeneratedLayers(masks: seq<seq<seq<bool>>>, rows: nat, cols: nat, active: set<int>, y: nat, x: nat)
    requires y < rows && x < cols
    ensures var t := TopLayer(GeneratedLayers(masks, rows, cols), active, y, x);
            t <= |masks| &&
            (t < |masks| ==> t + 1 in active && InkAt(masks[t], y, x)) &&
            (forall l :: 0 <= l < t ==> !(l + 1 in active && InkAt(masks[l], y, x)))
    ensures MergedGlyph(GeneratedLayers(masks, rows, cols), active, y, x) != ' ' <==>
            exists l :: 0 <= l < |masks| && l + 1 in active && InkAt(masks[l], y, x)
  {
    var layers := GeneratedLayers(masks, rows, cols);
    var t := TopLayer(layers, active, y, x);
    forall l | 0 <= l < |masks|
      ensures Visible(layers[l], active, y, x) <==> l + 1 in active && InkAt(masks[l], y, x)
    {
      GeneratedVisibleIffInk(masks, rows, cols, active, l, y, x);
    }
    GeneratedLayersCells(masks, rows, cols);
  }

  /** Generated layers always satisfy the merge's precondition: every layer is rows x cols, whatever is active. */
  lemma GeneratedMergeable(masks: seq<seq<seq<bool>>>, rows: nat, cols: nat, active: set<int>)
    requires rows >= 1
    ensures Mergeable(GeneratedLayers(masks, rows, cols), active)
    ensures |masks| > 0 ==> Rows(GeneratedLayers(masks, rows, cols)) == rows &&
                            Cols(GeneratedLayers(masks, rows, cols)) == cols
  {
    GeneratedLayersCells(masks, rows, cols);
  }
}
