# tracingpaper_sim image-to-text core in Dafny

tracingpaper_sim turns a picture into stacked "tracing paper" layers of text.
The picture is sampled on a grid. Each cell gets an inverted luminance, its
*brightness*: 0 is white and 1 is black. Layer L marks the cells whose
brightness has binary-fraction digit L set. Every marked cell is then filled
with the next character of a fixed Japanese sample text. The text runs on
across all layers in scan order. Finally the layers that are switched on are
merged into one text block. At each cell the merge shows the glyph of the
first shown layer that has one.

This project models that core as imperative Dafny. Each method below is
proved against a specification function, and lemmas then prove the
properties of those functions:

- `image_processor.dfy`, module `ImageProcessor`, models
  `src/utils/imageProcessor.ts`:
  - `ProcessImage` is the sampling loop of `processImage`. It reads an RGBA
    byte buffer, not a canvas.
  - `ConvertToBinaryLayers` is the bit-plane decomposition
    `convertToBinaryLayers`.
  - Brightness and layer weights are exact reals, and `Math.floor` is
    `.Floor`.
  - JavaScript's truncating `%` is written out as `JsRem`. It matters for
    negative values, which are never ink.
- `ascii_generator.dfy` models `src/utils/asciiGenerator.ts`:
  - module `SampleText` holds the sample text;
  - module `AsciiGenerator` holds `GenerateAsciiLayers`, which threads one
    text cursor through three nested loops, and `MergeAsciiLayers`, which
    breaks out of the layer loop at the first visible glyph;
  - it also holds the opacity rule m^L.
- `pipeline.dfy`, module `Pipeline`, relates the two steps. The application
  composes only up to `generateAsciiLayers` (`src/App.tsx:36-44`) and draws
  the glyph layers over each other on a canvas
  (`src/components/AsciiArtSimulator.tsx:54-61`); nothing in it calls
  `mergeAsciiLayers`. The model itself applies the merge to the generated
  layers. It then states what the merged glyph and the merged text show at
  a cell in terms of that cell's brightness.

The digit proofs work with "b doubled L times" (`Scale`) in place of
b·2^L. `DivideByWeight` and `ScaleIsProduct` connect the two forms.

The help text (`src/components/HelpModal.tsx:26`) suggests that each layer
paints one binary digit of the 0–1 shade. Read as the expansion 0.111…₂, a
shade of exactly 1 would set every digit. The code sets none, because
floor(1·2^L) is even for L ≥ 1. The model follows the code:
- `NoInkAtFullBrightness` states this;
- `FullBrightnessReconstructsToZero` shows that the truncation bound fails at 1;
- `WhiteAndBlackCellsStayBlank` shows that pure black cells come out blank
  in the merged glyph grid, just like white ones.

The code validates nothing. A layer count of 0 or less gives no layers, and
an empty layer list merges to the empty string. Both are modelled as
behaviour. The merge's shape assumptions become a precondition, `Mergeable`:
the first layer has a row, and every *active* layer covers the first
layer's grid. Only active layers are ever indexed.

## Model

| member | source | states |
|---|---|---|
| ImageProcessor.Brightness | src/utils/imageProcessor.ts:52-53 | the inverted luminance lies in [0, 1]; it is 0 exactly for white (255, 255, 255) and 1 exactly for black (0, 0, 0) |
| ImageProcessor.CellOffsetInBuffer | src/utils/imageProcessor.ts:47-50 | for a cell inside the grid, the RGBA offset (y·cols + x)·4 and the three channels after it lie inside a buffer of rows·cols·4 bytes |
| ImageProcessor.ProcessImage | src/utils/imageProcessor.ts:44-58 | gives gridRows rows of gridCols pixels; pixel (y, x) carries its own x and y and the brightness of the r, g, b bytes at offset (y·gridCols + x)·4; every brightness is in [0, 1] |
| ImageProcessor.DivideByWeight | src/utils/imageProcessor.ts:70-77 | dividing by the layer weight 2^-L is doubling L times |
| ImageProcessor.ScaleIsProduct | src/utils/imageProcessor.ts:70-77 | doubling b L times gives b·2^L |
| ImageProcessor.InkIsBinaryDigit | src/utils/imageProcessor.ts:70-78 | a cell is ink in layer L exactly when b ≥ 0 and floor(b·2^L) is odd, i.e. when binary digit L of the brightness is set |
| ImageProcessor.NoInkAtZeroBrightness | src/utils/imageProcessor.ts:77-78 | a white cell (brightness 0) is ink in no layer |
| ImageProcessor.NoInkAtFullBrightness | src/utils/imageProcessor.ts:77-78 | a pure black cell (brightness 1) is ink in no layer L ≥ 1, because floor(2^L) is even |
| ImageProcessor.NoInkBelowZero | src/utils/imageProcessor.ts:77-78 | a negative brightness is never ink: the truncated remainder of a negative floor is 0 or -1 |
| ImageProcessor.FirstDigit | src/utils/imageProcessor.ts:70-78 | for b in [0, 1), layer 1 has ink exactly when b ≥ 1/2 |
| ImageProcessor.ShiftDigit | src/utils/imageProcessor.ts:70-78 | for b in [0, 1), layer L + 1 of b has the same ink as layer L of the fractional part of 2b |
| ImageProcessor.DigitsShift | src/utils/imageProcessor.ts:69-78 | layers 2..n of b are layers 1..n-1 of the fractional part of 2b |
| ImageProcessor.WeightedSumShift | src/utils/imageProcessor.ts:70 | moving every digit one layer deeper halves the rebuilt value |
| ImageProcessor.TruncationBound | src/utils/imageProcessor.ts:69-78 | for b in [0, 1), the first n layers weighted by 2^-L rebuild a value at most b that falls short of b by less than 2^-n |
| ImageProcessor.WeightedSumPositive | src/utils/imageProcessor.ts:70-78 | a weighted digit sum is never negative, and it is positive exactly when some digit is set |
| ImageProcessor.ReconstructPositive | src/utils/imageProcessor.ts:69-78 | the first n layers rebuild a positive value exactly when one of them has ink at the cell |
| ImageProcessor.FullBrightnessReconstructsToZero | src/utils/imageProcessor.ts:69-78 | at brightness 1 the layers rebuild 0, so 1 is missed by at least 2^-n: the truncation bound does not extend to 1 |
| ImageProcessor.PrefixStable | src/utils/imageProcessor.ts:69-86 | decomposing with n ≤ m layers gives exactly the first layers of the decomposition with m layers |
| ImageProcessor.ConvertToBinaryLayers | src/utils/imageProcessor.ts:63-90 | returns max(numLayers, 0) layers, the i-th labelled i + 1, each shaped like the pixel grid row for row; cell (y, x) of layer i + 1 is set exactly when that pixel's brightness is ink in layer i + 1 |
| SampleText.SampleTextHasNoBlank | src/utils/asciiGenerator.ts:1 | the sample text contains no blank, so a glyph taken from it is never mistaken for an empty cell |
| SampleText.SampleTextLength | src/utils/asciiGenerator.ts:1 | the sample text is 89 characters long |
| AsciiGenerator.OpacityFades | src/components/AsciiArtSimulator.tsx:58 | for a multiplier m in [0, 1], the opacity m^L of a layer lies in [0, 1] and never grows from one layer to the next |
| AsciiGenerator.HalfOpacityIsWeight | src/utils/asciiGenerator.ts:20 | with multiplier 1/2, layer L is drawn with opacity 2^-L, the weight of its binary digit |
| AsciiGenerator.InkBeforeBelowTotal | src/utils/asciiGenerator.ts:15-27 | the text index of an ink cell lies below the count of ink cells up to the end of its layer, and so below the total ink count |
| AsciiGenerator.InkBeforeIncreasing | src/utils/asciiGenerator.ts:15-27 | ink cells receive strictly increasing text indices in layer, row, column order, so no index is given twice and the cursor is never reset between layers |
| AsciiGenerator.EveryIndexUsed | src/utils/asciiGenerator.ts:15-27 | every index below the ink count of the first l layers is the text index of some ink cell in them; with the two lemmas above, the k-th ink cell gets index k |
| AsciiGenerator.Glyph | src/utils/asciiGenerator.ts:25-29 | a generated glyph is non-blank exactly when the mask has ink at the cell, a missing row or column counting as no ink |
| AsciiGenerator.GeneratedLayersCells | src/utils/asciiGenerator.ts:17-39 | one layer per mask, labelled index + 1, with opacity 2^-(index + 1) and a grid of exactly rows × cols cells; a cell is non-blank exactly on ink, and an ink cell holds the sample text character at its text index modulo the text length |
| AsciiGenerator.GenerateAsciiLayers | src/utils/asciiGenerator.ts:9-43 | the loop builds exactly the generated layers, and the final cursor equals the number of ink cells across all layers |
| AsciiGenerator.TopLayer | src/utils/asciiGenerator.ts:58-64 | picks the first layer in list order that is active and non-blank at the cell, or reports that none is |
| AsciiGenerator.MergedBlankIffNoneVisible | src/utils/asciiGenerator.ts:58-64 | a merged cell is blank exactly when no active layer has a glyph there |
| AsciiGenerator.LayersBelowTopIgnored | src/utils/asciiGenerator.ts:59-63 | once a layer shows a glyph at a cell, layers listed after it cannot change that cell: the earlier active layer wins |
| AsciiGenerator.InactiveLayerIgnored | src/utils/asciiGenerator.ts:60 | removing a switched-off layer leaves every merged cell unchanged |
| AsciiGenerator.JoinLinesLength | src/utils/asciiGenerator.ts:70 | joining n lines of equal width w with newlines gives n·(w + 1) - 1 characters |
| AsciiGenerator.JoinLinesCell | src/utils/asciiGenerator.ts:70 | character x of line y sits at position y·(w + 1) + x of the joined text |
| AsciiGenerator.JoinLinesBreak | src/utils/asciiGenerator.ts:70 | every line but the last is followed by a newline |
| AsciiGenerator.MergedLength | src/utils/asciiGenerator.ts:49-70 | a non-empty merge has rows lines of cols characters joined by newlines, with rows and cols read off the first layer |
| AsciiGenerator.MergedCell | src/utils/asciiGenerator.ts:55-66 | merged cell (y, x) shows the glyph of the first active, non-blank layer there, else a blank |
| AsciiGenerator.MergedLineBreak | src/utils/asciiGenerator.ts:67-70 | every merged row but the last ends in a newline |
| AsciiGenerator.MergeAsciiLayers | src/utils/asciiGenerator.ts:45-71 | gives the empty text for no layers and otherwise exactly the merged block described by the three lemmas above |
| AsciiGenerator.GeneratedMergeable | src/utils/asciiGenerator.ts:17-33 | layers built by generateAsciiLayers with at least one row always meet the merge precondition for any set of active layers, and their grid is rows x cols |
| AsciiGenerator.GeneratedVisibleIffInk | src/utils/asciiGenerator.ts:25-60 | a generated layer is visible at a cell exactly when it is active and its mask has ink there |
| AsciiGenerator.MergeOfGeneratedLayers | src/utils/asciiGenerator.ts:25-64 | merging generated layers takes each cell from the first active layer whose mask has ink there; the cell is blank exactly when no active layer has ink |
| Pipeline.MaskInkIsDigit | src/App.tsx:36-44 | mask l of the decomposition has ink at a cell exactly when binary digit l + 1 of its brightness is set |
| Pipeline.MergedCellShowsSetDigit | src/utils/asciiGenerator.ts:45-71 | the merged glyph at a cell is non-blank exactly when some active layer L ≤ numLayers has digit L of the cell's brightness set |
| Pipeline.WhiteAndBlackCellsStayBlank | src/utils/asciiGenerator.ts:45-71 | white cells and pure black cells get a blank merged glyph, whatever layers are shown |
| Pipeline.MergedCellBlankIffNoDigits | src/utils/asciiGenerator.ts:45-71 | with layers 1..n all shown, the merged glyph at a cell is blank exactly when its first n layers rebuild a brightness of 0 |
| Pipeline.MergedTextShowsSetDigit | src/utils/asciiGenerator.ts:45-71 | the generated layers meet the merge precondition, and in the merged text the character at row y, column x (offset y·(cols + 1) + x) is non-blank exactly when some active layer L ≤ numLayers has digit L of the cell's brightness set |

## Left out

- `loadImage` (src/utils/imageProcessor.ts:12-24) is asynchronous file and image I/O.
- The canvas step of `processImage` (src/utils/imageProcessor.ts:31-40) is a browser call. `ProcessImage` takes the resampled RGBA buffer as a parameter. The alpha byte is read by neither the source nor the model.
- IEEE-754 arithmetic is not modelled. Brightness, weights and opacities are exact reals, so rounding near a digit boundary and the float value of 0.299·r + 0.587·g + 0.114·b are not captured.
- ProcessImage, GenerateAsciiLayers: grid sizes are naturals. Negative or fractional JavaScript numbers, which the loops would treat as zero or round up, are not modelled.
- GenerateAsciiLayers also returns its final text cursor, which the source keeps local, so that the cursor's final value can be stated.
- Grid cells are characters, where the source uses one-character strings. Every character of the sample text is a single UTF-16 code unit, so indexing agrees.
- MergeAsciiLayers requires `Mergeable`. For active layers smaller than the first layer the source would throw a TypeError or append "undefined", and the model does not capture either. Layers from generateAsciiLayers with at least one row always meet it (`GeneratedMergeable`).
- OpacityFades: `Math.pow` is modelled for natural exponents only, which are the only ones layer labels take.
- Drawing the layers (`generateAsciiCanvas`, the canvas compositing in src/components/AsciiArtSimulator.tsx) is rendering. Only the opacity rule m^L is kept.
- `toggleLayer` (src/components/AsciiArtSimulator.tsx:91-101) is UI state. The set of active layers is a parameter of the merge.
- src/utils/downloadHelper.ts (canvas drawing, zip and file saving) consists of foreign calls. Its row join has the shape of `JoinLines`.
- The React components in src/App.tsx and src/components are UI. Only the composition at src/App.tsx:36-44, followed by the merge, is stated, as the `Pipeline` lemmas.
