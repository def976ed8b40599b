// Model of src/utils/imageProcessor.ts: the per-cell luminance loop of
// processImage (the canvas that resamples the image into an RGBA buffer is
// outside the model; the buffer is an input) and the bit-plane decomposition
// convertToBinaryLayers.  Brightness and weights are exact reals.

module ImageProcessor {

  /** One channel value of the RGBA buffer the canvas returns. */
  type Byte = v: int | 0 <= v < 256

  datatype ProcessedPixel = ProcessedPixel(x: int, y: int, brightness: real)

  /** Layer number `layer` (1-based) and its ink mask. */
  datatype BinaryLayer = BinaryLayer(layer: int, pixels: seq<seq<bool>>)

  // ---------------------------------------------------------------------------
  // Luminance sampling
  // ---------------------------------------------------------------------------

  /** Inverted perceptual luminance of one RGB triple: 0 is white, 1 is black. */
  function Brightness(r: Byte, g: Byte, b: Byte): (v: real)
    ensures 0.0 <= v <= 1.0
    ensures v == 0.0 <==> r == 255 && g == 255 && b == 255
    ensures v == 1.0 <==> r == 0 && g == 0 && b == 0
  {
    1.0 - (r as real * 0.299 + g as real * 0.587 + b as real * 0.114) / 255.0
  }

  /** Offset of the red channel of cell (y, x) in a row-major RGBA buffer. */
  function CellOffset(y: nat, x: nat, gridCols: nat): nat
  {
    (y * gridCols + x) * 4
  }

  lemma CellOffsetInBuffer(y: nat, x: nat, gridRows: nat, gridCols: nat)
    requires y < gridRows && x < gridCols
    ensures CellOffset(y, x, gridCols) + 3 < gridRows * gridCols * 4
  {
    assert y * gridCols + x < (y + 1) * gridCols;
    assert (y + 1) * gridCols <= gridRows * gridCols;
  }

  /** The sampling loop of processImage over an RGBA buffer of gridRows x gridCols cells. */
  method ProcessImage(data: seq<Byte>, gridRows: nat, gridCols: nat)
    returns (pixels: seq<seq<ProcessedPixel>>)
    requires |data| == gridRows * gridCols * 4
    ensures |pixels| == gridRows
    ensures forall y :: 0 <= y < gridRows ==> |pixels[y]| == gridCols
    ensures forall y, x :: 0 <= y < gridRows && 0 <= x < gridCols ==>
              CellOffset(y, x, gridCols) + 2 < |data| &&
              pixels[y][x] == ProcessedPixel(x, y, Brightness(data[CellOffset(y, x, gridCols)],
                                                              data[CellOffset(y, x, gridCols) + 1],
                                                              data[CellOffset(y, x, gridCols) + 2]))
    ensures forall y, x :: 0 <= y < gridRows && 0 <= x < gridCols ==>
              0.0 <= pixels[y][x].brightness <= 1.0
  {
    pixels := [];
    var y := 0;
    while y < gridRows
      invariant 0 <= y <= gridRows && |pixels| == y
      invariant forall yy :: 0 <= yy < y ==> |pixels[yy]| == gridCols
      invariant forall yy, x :: 0 <= yy < y && 0 <= x < gridCols ==>
                  CellOffset(yy, x, gridCols) + 2 < |data| &&
                  pixels[yy][x] == ProcessedPixel(x, yy, Brightness(data[CellOffset(yy, x, gridCols)],
                                                                    data[CellOffset(yy, x, gridCols) + 1],
                                                                    data[CellOffset(yy, x, gridCols) + 2]))
    {
      var row: seq<ProcessedPixel> := [];
      var x := 0;
      while x < gridCols
        invariant 0 <= x <= gridCols && |row| == x
        invariant forall xx :: 0 <= xx < x ==>
                    CellOffset(y, xx, gridCols) + 2 < |data| &&
                    row[xx] == ProcessedPixel(xx, y, Brightness(data[CellOffset(y, xx, gridCols)],
                                                                data[CellOffset(y, xx, gridCols) + 1],
                                                                data[CellOffset(y, xx, gridCols) + 2]))
      {
        CellOffsetInBuffer(y, x, gridRows, gridCols);
        var i := (y * gridCols + x) * 4;
        var r, g, b := data[i], data[i + 1], data[i + 2];
        var brightness := 1.0 - (r as real * 0.299 + g as real * 0.587 + b as real * 0.114) / 255.0;
        row := row + [ProcessedPixel(x, y, brightness)];
        x := x + 1;
      }
      pixels := pixels + [row];
      y := y + 1;
    }
  }

  // ---------------------------------------------------------------------------
  // Bit-plane decomposition
  // ---------------------------------------------------------------------------

  function Pow2(n: nat): (p: nat)
    ensures p >= 1
  {
    if n == 0 then 1 else 2 * Pow2(n - 1)
  }

  /** Math.pow(2, -layer): the weight of layer `layer`, halving from layer to layer. */
  function Weight(layer: nat): (w: real)
    ensures 0.0 < w <= 1.0
  {
    if layer == 0 then 1.0 else Weight(layer - 1) / 2.0
  }

  /** JavaScript's `%` on integers: the remainder truncated toward zero. */
  function JsRem(a: int, d: int): int
    requires d > 0
  {
    if a >= 0 then a % d else -((-a) % d)
  }

  /** The cell test of convertToBinaryLayers: Math.floor(brightness / weight) % 2 === 1. */
  predicate IsInk(brightness: real, layer: nat)
  {
    JsRem((brightness / Weight(layer)).Floor, 2) == 1
  }

  // The proofs below work with b * 2^L written as `layer` doublings of b,
  // which keeps the solver's arithmetic linear.

  /** b doubled `layer` times. */
  function Scale(b: real, layer: nat): real
  {
    if layer == 0 then b else 2.0 * Scale(b, layer - 1)
  }

  lemma {:induction false} ScaleIsProduct(b: real, layer: nat)
    ensures Scale(b, layer) == b * Pow2(layer) as real
  {
    if layer > 0 {
      ScaleIsProduct(b, layer - 1);
      var p := Pow2(layer - 1) as real;
      assert Pow2(layer) as real == 2.0 * p;
      assert 2.0 * (b * p) == b * (2.0 * p);
    }
  }

  lemma HalveDivisor(b: real, w: real)
    requires w > 0.0
    ensures b / (w / 2.0) == 2.0 * (b / w)
  {
  }

  /** Dividing by the weight of layer L doubles L times. */
  lemma {:induction false} DivideByWeight(b: real, layer: nat)
    ensures b / Weight(layer) == Scale(b, layer)
  {
    if layer > 0 {
      DivideByWeight(b, layer - 1);
      HalveDivisor(b, Weight(layer - 1));
    }
  }

  lemma {:induction false} ScaleSign(b: real, layer: nat)
    ensures b < 0.0 ==> Scale(b, layer) < 0.0
    ensures b >= 0.0 ==> Scale(b, layer) >= 0.0
  {
    if layer > 0 {
      ScaleSign(b, layer - 1);
    }
  }

  /** The ink test in doubling form. */
  lemma InkIsScaledDigit(b: real, layer: nat)
    ensures IsInk(b, layer) <==> 0.0 <= b && Scale(b, layer).Floor % 2 == 1
  {
    DivideByWeight(b, layer);
    ScaleSign(b, layer);
  }

  /** The ink test reads off digit `layer` of the binary fraction expansion of the brightness. */
  lemma InkIsBinaryDigit(b: real, layer: nat)
    ensures IsInk(b, layer) <==> 0.0 <= b && (b * Pow2(layer) as real).Floor % 2 == 1
  {
    InkIsScaledDigit(b, layer);
    ScaleIsProduct(b, layer);
  }

  lemma {:induction false} ScaleOfZero(layer: nat)
    ensures Scale(0.0, layer) == 0.0
  {
    if layer > 0 {
      ScaleOfZero(layer - 1);
    }
  }

  lemma {:induction false} ScaleOfOne(layer: nat)
    ensures Scale(1.0, layer) == Pow2(layer) as real
  {
    if layer > 0 {
      ScaleOfOne(layer - 1);
    }
  }

  /** White cells (brightness 0) carry no ink in any layer. */
  lemma NoInkAtZeroBrightness(layer: nat)
    ensures !IsInk(0.0, layer)
  {
  }

  /** A cell of brightness exactly 1 (pure black) carries no ink in any layer 1, 2, ...: floor(2^L) is even. */
  lemma NoInkAtFullBrightness(layer: nat)
    requires layer >= 1
    ensures !IsInk(1.0, layer)
  {
    InkIsScaledDigit(1.0, layer);
    ScaleOfOne(layer);
    assert Pow2(layer) == 2 * Pow2(layer - 1);
    assert (Pow2(layer) as real).Floor == Pow2(layer);
  }

  /** A negative brightness is never ink: the truncated remainder of a negative floor is 0 or -1. */
  lemma NoInkBelowZero(b: real, layer: nat)
    requires b < 0.0
    ensures !IsInk(b, layer)
  {
  }

  /** The ink values of layers 1..n at one cell, most significant first. */
  function Digits(b: real, n: nat): (ds: seq<bool>)
    ensures |ds| == n
  {
    seq(n, i requires 0 <= i < n => IsInk(b, i + 1))
  }

  /** Sum over i of ds[i] * 2^-(first + i). */
  function WeightedSum(ds: seq<bool>, first: nat): real
  {
    if ds == [] then 0.0 else (if ds[0] then Weight(first) else 0.0) + WeightedSum(ds[1..], first + 1)
  }

  /** Sum over L = 1..|ds| of digit L times 2^-L: the brightness rebuilt from the layers. */
  function Reconstruct(ds: seq<bool>): real
  {
    WeightedSum(ds, 1)
  }

  /** Moving every digit one place down halves the sum. */
  lemma {:induction false} WeightedSumShift(ds: seq<bool>, first: nat)
    ensures WeightedSum(ds, first + 1) == WeightedSum(ds, first) / 2.0
  {
    if ds != [] {
      WeightedSumShift(ds[1..], first + 1);
    }
  }

  /** Removing whole units from x lowers its floor by as much. */
  lemma FloorMinusInteger(x: real, k: int)
    ensures (x - k as real).Floor == x.Floor - k
  {
    var f := x.Floor;
    assert f as real <= x < f as real + 1.0;
    assert (f - k) as real <= x - k as real < (f - k) as real + 1.0;
  }

  /** Digit 1 of b in [0, 1) is set exactly when b >= 1/2. */
  lemma FirstDigit(b: real)
    requires 0.0 <= b < 1.0
    ensures IsInk(b, 1) <==> b >= 0.5
  {
  }

  /** The fractional part of 2b: the brightness whose digits are those of b from digit 2 on. */
  function DoubleFraction(b: real): real
  {
    if b >= 0.5 then 2.0 * b - 1.0 else 2.0 * b
  }

  lemma {:induction false} ScaleOfDouble(b: real, layer: nat)
    ensures Scale(b, layer + 1) == Scale(2.0 * b, layer)
  {
    if layer > 0 {
      ScaleOfDouble(b, layer - 1);
    }
  }

  lemma {:induction false} ScaleOfDifference(b: real, c: real, layer: nat)
    ensures Scale(b - c, layer) == Scale(b, layer) - Scale(c, layer)
  {
    if layer > 0 {
      ScaleOfDifference(b, c, layer - 1);
    }
  }

  /** Removing an even number of units keeps the parity of the floor. */
  lemma ParityAfterEvenShift(x: real, half: int)
    ensures (x - (2 * half) as real).Floor % 2 == x.Floor % 2
  {
    FloorMinusInteger(x, 2 * half);
  }

  /** Digit L + 1 of b is digit L of the fractional part of 2b. */
  lemma ShiftDigit(b: real, layer: nat)
    requires 0.0 <= b < 1.0 && layer >= 1
    ensures IsInk(b, layer + 1) <==> IsInk(DoubleFraction(b), layer)
  {
    InkIsScaledDigit(b, layer + 1);
    InkIsScaledDigit(DoubleFraction(b), layer);
    ScaleOfDouble(b, layer);
    if b >= 0.5 {
      ScaleOfDifference(2.0 * b, 1.0, layer);
      ScaleOfOne(layer);
      assert Pow2(layer) == 2 * Pow2(layer - 1);
      ParityAfterEvenShift(Scale(2.0 * b, layer), Pow2(layer - 1));
    }
  }

  /** Layers 2..n of b are layers 1..n-1 of the fractional part of 2b. */
  lemma DigitsShift(b: real, n: nat)
    requires 0.0 <= b < 1.0 && n >= 1
    ensures Digits(b, n)[1..] == Digits(DoubleFraction(b), n - 1)
  {
    forall i | 0 <= i < n - 1
      ensures Digits(b, n)[1..][i] == Digits(DoubleFraction(b), n - 1)[i]
    {
      ShiftDigit(b, i + 1);
    }
  }

  /** Truncation bound: for b in [0, 1) the first n layers never overshoot b and miss it by less than 2^-n. */
  lemma {:induction false} TruncationBound(b: real, n: nat)
    requires 0.0 <= b < 1.0
    ensures Reconstruct(Digits(b, n)) <= b
    ensures b - Reconstruct(Digits(b, n)) < Weight(n)
    decreases n
  {
    if n > 0 {
      var ds, c := Digits(b, n), DoubleFraction(b);
      TruncationBound(c, n - 1);
      DigitsShift(b, n);
      FirstDigit(b);
      WeightedSumShift(ds[1..], 1);
      assert Reconstruct(ds) == ((if b >= 0.5 then 1.0 else 0.0) + Reconstruct(Digits(c, n - 1))) / 2.0;
    }
  }

  lemma {:induction false} BlankSumsToZero(ds: seq<bool>, first: nat)
    requires forall i :: 0 <= i < |ds| ==> !ds[i]
    ensures WeightedSum(ds, first) == 0.0
  {
    if ds != [] {
      BlankSumsToZero(ds[1..], first + 1);
    }
  }

  /** The rebuilt value is never negative, and positive exactly when some digit is set. */
  lemma {:induction false} WeightedSumPositive(ds: seq<bool>, first: nat)
    ensures WeightedSum(ds, first) >= 0.0
    ensures WeightedSum(ds, first) > 0.0 <==> exists i :: 0 <= i < |ds| && ds[i]
  {
    if ds != [] {
      WeightedSumPositive(ds[1..], first + 1);
      if exists i :: 0 <= i < |ds[1..]| && ds[1..][i] {
        var i :| 0 <= i < |ds[1..]| && ds[1..][i];
        assert ds[i + 1];
      }
      if exists i :: 0 <= i < |ds| && ds[i] {
        var i :| 0 <= i < |ds| && ds[i];
        if i > 0 {
          assert ds[1..][i - 1];
        }
      }
    }
  }

  /** The first n layers rebuild a positive value exactly when one of them has ink. */
  lemma ReconstructPositive(b: real, n: nat)
    ensures Reconstruct(Digits(b, n)) >= 0.0
    ensures Reconstruct(Digits(b, n)) > 0.0 <==> exists layer :: 1 <= layer <= n && IsInk(b, layer)
  {
    WeightedSumPositive(Digits(b, n), 1);
    if exists i :: 0 <= i < n && Digits(b, n)[i] {
      var i :| 0 <= i < n && Digits(b, n)[i];
      assert IsInk(b, i + 1);
    }
    if exists layer :: 1 <= layer <= n && IsInk(b, layer) {
      var layer :| 1 <= layer <= n && IsInk(b, layer);
      assert Digits(b, n)[layer - 1];
    }
  }

  /** At brightness 1 every digit reads 0: the reconstruction is 0, so the truncation bound fails there. */
  lemma FullBrightnessReconstructsToZero(n: nat)
    ensures Reconstruct(Digits(1.0, n)) == 0.0
    ensures n >= 1 ==> 1.0 - Reconstruct(Digits(1.0, n)) >= Weight(n)
  {
    forall i | 0 <= i < n
      ensures !Digits(1.0, n)[i]
    {
      NoInkAtFullBrightness(i + 1);
    }
    BlankSumsToZero(Digits(1.0, n), 1);
  }

  /** Ink mask of layer `layer` over a brightness grid, row for row. */
  function Plane(pixels: seq<seq<ProcessedPixel>>, layer: nat): seq<seq<bool>>
  {
    seq(|pixels|, y requires 0 <= y < |pixels| =>
      seq(|pixels[y]|, x requires 0 <= x < |pixels[y]| => IsInk(pixels[y][x].brightness, layer)))
  }

  /** Layers 1..numLayers of a brightness grid; none when numLayers <= 0. */
  function Decompose(pixels: seq<seq<ProcessedPixel>>, numLayers: int): seq<BinaryLayer>
  {
    var n := if numLayers > 0 then numLayers else 0;
    seq(n, i requires 0 <= i < n => BinaryLayer(i + 1, Plane(pixels, i + 1)))
  }

  /** Decomposing with n layers gives the first n layers of any deeper decomposition. */
  lemma PrefixStable(pixels: seq<seq<ProcessedPixel>>, n: int, m: int)
    requires n <= m
    ensures |Decompose(pixels, m)| >= |Decompose(pixels, n)|
    ensures Decompose(pixels, m)[..|Decompose(pixels, n)|] == Decompose(pixels, n)
  {
  }

  /** convertToBinaryLayers: layer i+1 marks the cells whose brightness has binary digit i+1 set. */
  method ConvertToBinaryLayers(pixels: seq<seq<ProcessedPixel>>, numLayers: int)
    returns (layers: seq<BinaryLayer>)
    ensures |layers| == (if numLayers > 0 then numLayers else 0)
    ensures forall i :: 0 <= i < |layers| ==> layers[i].layer == i + 1 && |layers[i].pixels| == |pixels|
    ensures forall i, y :: 0 <= i < |layers| && 0 <= y < |pixels| ==> |layers[i].pixels[y]| == |pixels[y]|
    ensures forall i, y, x :: 0 <= i < |layers| && 0 <= y < |pixels| && 0 <= x < |pixels[y]| ==>
              (layers[i].pixels[y][x] <==> IsInk(pixels[y][x].brightness, i + 1))
    ensures layers == Decompose(pixels, numLayers)
  {
    layers := [];
    var layer := 0;
    while layer < numLayers
      invariant 0 <= layer <= (if numLayers > 0 then numLayers else 0)
      invariant layers == Decompose(pixels, layer)
    {
      var weight := Weight(layer + 1);
      var layerPixels: seq<seq<bool>> := [];
      var y := 0;
      while y < |pixels|
        invariant 0 <= y <= |pixels|
        invariant layerPixels == Plane(pixels, layer + 1)[..y]
      {
        var row: seq<bool> := [];
        var x := 0;
        while x < |pixels[y]|
          invariant 0 <= x <= |pixels[y]|
          invariant row == Plane(pixels, layer + 1)[y][..x]
        {
          var brightness := pixels[y][x].brightness;
          var binaryValue := JsRem((brightness / weight).Floor, 2);
          row := row + [binaryValue == 1];
          x := x + 1;
        }
        assert row == Plane(pixels, layer + 1)[y];
        layerPixels := layerPixels + [row];
        y := y + 1;
      }
      assert layerPixels == Plane(pixels, layer + 1);
      layers := layers + [BinaryLayer(layer + 1, layerPixels)];
      layer := layer + 1;
    }
  }
}
