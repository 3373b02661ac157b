/** The text-to-bitmap layout arithmetic: the weighted width of the text
    (`getRealFontWidth`), the canvas sizes and baselines (`makeImage`) and the
    straight-line driver (`main`). Widths are counted in half-units, so the
    weights 0.5 and 1.0 become 1 and 2 and every value is an integer. */
module TextLayout {
  import opened JavaText
  import opened LineSplit

  /** The font size, which is also the height of one line's band. */
  const FONTSIZE: nat := 40
  /** Every line is drawn this far from the left edge... */
  const LEFT_MARGIN: int := 5
  /** ...with its baseline this far above the bottom of its band. */
  const BASELINE_RAISE: int := 5

  /** Weight of one UTF-16 unit in half-units: 0.5 below 256, 1.0 otherwise. */
  function UnitWeight(c: Unit): nat
  {
    if c < 256 then 1 else 2
  }

  /** The weighted width of one line in half-units, summed left to right. It
      lies between the line's length and twice its length. */
  function LineWeight(line: JString): (w: nat)
    ensures |line| <= w <= 2 * |line|
  {
    if |line| == 0 then 0
    else LineWeight(line[..|line| - 1]) + UnitWeight(line[|line| - 1])
  }

  /** The larger of two weights, as the `if (w > width)` update keeps it. */
  function Max(a: nat, b: nat): nat { if a < b then b else a }

  /** The largest line weight, scanning the lines in order and keeping the
      running maximum (0 for no lines): no line weighs more. */
  function MaxWeight(lines: seq<JString>): (m: nat)
    ensures forall k :: 0 <= k < |lines| ==> LineWeight(lines[k]) <= m
  {
    if |lines| == 0 then 0
    else Max(MaxWeight(lines[..|lines| - 1]), LineWeight(lines[|lines| - 1]))
  }

  // ---------------------------------------------------------------------
  // getRealFontWidth

  /** `getRealFontWidth`: the weighted width of the widest line of `text`, in
      half-units. */
  method GetRealFontWidth(text: JString) returns (width: nat)
    ensures width == MaxWeight(Split(text))
  {
    var lines := Split(text);
    width := 0;
    var i := 0;
    while i < |lines|
      invariant 0 <= i <= |lines|
      invariant width == MaxWeight(lines[..i])
    {
      var line := lines[i];
      var w := 0;
      var j := 0;
      while j < |line|
        invariant 0 <= j <= |line|
        invariant w == LineWeight(line[..j])
      {
        if line[j] < 256 {
          w := w + 1;
        } else {
          w := w + 2;
        }
        assert line[..j + 1][..j] == line[..j];
        j := j + 1;
      }
      assert line[..j] == line;
      assert lines[..i + 1][..i] == lines[..i];
      assert MaxWeight(lines[..i + 1]) == Max(width, w);
      if w > width {
        width := w;
      }
      i := i + 1;
    }
    assert lines[..i] == lines;
  }

  // ---------------------------------------------------------------------
  // Lemmas about the weights

  /** A line of N units all below 256 weighs N half-units (0.5 x N). */
  lemma {:induction false} NarrowLineWeight(line: JString)
    requires forall k :: 0 <= k < |line| ==> line[k] < 256
    ensures LineWeight(line) == |line|
  {
    if |line| > 0 {
      NarrowLineWeight(line[..|line| - 1]);
    }
  }

  /** A line of N units all at or above 256 weighs 2N half-units (1.0 x N). */
  lemma {:induction false} WideLineWeight(line: JString)
    requires forall k :: 0 <= k < |line| ==> line[k] >= 256
    ensures LineWeight(line) == 2 * |line|
  {
    if |line| > 0 {
      WideLineWeight(line[..|line| - 1]);
    }
  }

  /** With at least one line the maximum is the weight of some line. */
  lemma {:induction false} MaxWeightAttained(lines: seq<JString>)
    ensures |lines| > 0 ==> exists k :: 0 <= k < |lines| && MaxWeight(lines) == LineWeight(lines[k])
  {
    if |lines| > 0 {
      var init := lines[..|lines| - 1];
      MaxWeightAttained(init);
      if |init| > 0 && MaxWeight(lines) == MaxWeight(init) {
        var k :| 0 <= k < |init| && MaxWeight(init) == LineWeight(init[k]);
        assert lines[k] == init[k];
      } else {
        var last := |lines| - 1;
        assert MaxWeight(lines) == LineWeight(lines[last]);
      }
    }
  }

  /** The maximum is zero exactly when there are no lines or every line is empty. */
  lemma {:induction false} MaxWeightZeroIff(lines: seq<JString>)
    ensures MaxWeight(lines) == 0 <==> forall k :: 0 <= k < |lines| ==> lines[k] == []
  {
    MaxWeightAttained(lines);
    if MaxWeight(lines) == 0 {
      forall k | 0 <= k < |lines| ensures lines[k] == [] {
        assert LineWeight(lines[k]) <= 0;
      }
    } else {
      var k :| 0 <= k < |lines| && MaxWeight(lines) == LineWeight(lines[k]);
      assert lines[k] != [];
    }
  }

  /** The width of the text is zero exactly when the text is empty or made
      only of separators. */
  lemma TextWidthZeroIff(text: JString)
    ensures MaxWeight(Split(text)) == 0 <==> StripTrailingSeparators(text) == []
  {
    MaxWeightZeroIff(Split(text));
    SplitAllEmptyIff(text);
  }

  /** A single-line text of N units all below 256 is N half-units wide (0.5 x N). */
  lemma SingleLineNarrowWidth(text: JString)
    requires !ContainsSeparator(text)
    requires forall k :: 0 <= k < |text| ==> text[k] < 256
    ensures MaxWeight(Split(text)) == |text|
  {
    NarrowLineWeight(text);
    assert Split(text)[..0] == [];
  }

  /** A single-line text of N units all at or above 256 is 2N half-units wide (1.0 x N). */
  lemma SingleLineWideWidth(text: JString)
    requires !ContainsSeparator(text)
    requires forall k :: 0 <= k < |text| ==> text[k] >= 256
    ensures MaxWeight(Split(text)) == 2 * |text|
  {
    WideLineWeight(text);
    assert Split(text)[..0] == [];
  }

  // ---------------------------------------------------------------------
  // Canvas sizes and baselines

  /** `(int)(fontSize * realWidth)` with `realWidth` in half-units: every
      product is a multiple of 0.5 and FONTSIZE is even, so the truncating
      cast is exact and the canvas is 20 pixels per half-unit. */
  function CanvasWidth(halfUnits: nat): (w: nat)
    ensures w == 20 * halfUnits
  {
    (FONTSIZE * halfUnits) / 2
  }

  /** The y coordinate of line `i`'s baseline, `height * (i + 1) - 5`: with
      bands at least 5 pixels high it lies in line `i`'s own band. */
  function BaselineY(bandHeight: int, i: nat): (y: int)
    ensures bandHeight >= BASELINE_RAISE ==> bandHeight * i <= y < bandHeight * (i + 1)
  {
    assert bandHeight * (i + 1) == bandHeight * i + bandHeight;
    bandHeight * (i + 1) - BASELINE_RAISE
  }

  /** Baselines move strictly down the canvas as the line index grows. */
  lemma BaselinesIncrease(bandHeight: int, i: nat, j: nat)
    requires bandHeight > 0 && i < j
    ensures BaselineY(bandHeight, i) < BaselineY(bandHeight, j)
  {
    assert bandHeight * (j + 1) == bandHeight * (i + 1) + bandHeight * (j - i);
    assert bandHeight * (j - i) > 0;
  }

  /** With bands at least 5 pixels high, line `i`'s baseline lies inside a
      canvas of `lines` bands. */
  lemma BaselineInCanvas(bandHeight: int, i: nat, lines: nat)
    requires bandHeight >= BASELINE_RAISE && i < lines
    ensures 0 <= BaselineY(bandHeight, i) < bandHeight * lines
  {
    assert bandHeight * lines == bandHeight * (i + 1) + bandHeight * (lines - i - 1);
    assert bandHeight * (lines - i - 1) >= 0;
    assert bandHeight * i >= 0;
  }

  // ---------------------------------------------------------------------
  // makeImage

  /** An axis-aligned rectangle, as passed to `fillRect`. */
  datatype Rect = Rect(x: int, y: int, width: int, height: int)

  /** One `drawString(text, x, y)` call. */
  datatype TextDraw = TextDraw(text: JString, x: int, y: int)

  /** What `makeImage` produces: the canvas size, the white rectangle filled
      first and the text drawn on it, in drawing order. */
  datatype Image = Image(width: int, height: int, background: Rect, draws: seq<TextDraw>)

  /** The result of `makeImage`: an image, or the IllegalArgumentException a
      `BufferedImage` of the given non-positive size throws. */
  datatype MakeResult = Made(image: Image) | BadSize(width: int, height: int)

  /** The canvas of `image` is `width` by `bandHeight` times the number of
      lines, it is filled entirely, and line `i` is drawn at x = 5 on the
      baseline `bandHeight * (i + 1) - 5`. */
  ghost predicate LaidOut(image: Image, lines: seq<JString>, width: int, bandHeight: int)
  {
    && image.width == width
    && image.height == bandHeight * |lines|
    && image.background == Rect(0, 0, image.width, image.height)
    && |image.draws| == |lines|
    && forall i :: 0 <= i < |lines| ==> image.draws[i] == TextDraw(lines[i], LEFT_MARGIN, BaselineY(bandHeight, i))
  }

  /** `makeImage`: a `width` by `height` image is allocated (which fails for a
      non-positive side), then replaced by one `height` times the number of
      lines high (which fails when there are no lines), filled white, and
      each line is drawn in its band. The baselines of successive lines
      strictly increase and, with bands of at least 5 pixels, lie inside the
      canvas. */
  method MakeImage(text: JString, width: int, height: int) returns (r: MakeResult)
    ensures r.BadSize? <==> width <= 0 || height <= 0 || |Split(text)| == 0
    ensures r.Made? ==> LaidOut(r.image, Split(text), width, height)
    ensures r.Made? ==> forall i, j :: 0 <= i < j < |r.image.draws| ==> r.image.draws[i].y < r.image.draws[j].y
    ensures r.Made? && height >= BASELINE_RAISE ==>
      forall i :: 0 <= i < |r.image.draws| ==> 0 <= r.image.draws[i].y < r.image.height
  {
    if width <= 0 || height <= 0 {
      return BadSize(width, height);
    }
    var lines := Split(text);
    var canvasHeight := height * |lines|;
    if canvasHeight <= 0 {
      return BadSize(width, canvasHeight);
    }
    var draws: seq<TextDraw> := [];
    var i := 0;
    while i < |lines|
      invariant 0 <= i <= |lines|
      invariant |draws| == i
      invariant forall k :: 0 <= k < i ==> draws[k] == TextDraw(lines[k], LEFT_MARGIN, BaselineY(height, k))
    {
      draws := draws + [TextDraw(lines[i], LEFT_MARGIN, height * (i + 1) - BASELINE_RAISE)];
      i := i + 1;
    }
    var image := Image(width, canvasHeight, Rect(0, 0, width, canvasHeight), draws);
    forall a, b | 0 <= a < b < |draws| ensures draws[a].y < draws[b].y {
      BaselinesIncrease(height, a, b);
    }
    if height >= BASELINE_RAISE {
      forall a | 0 <= a < |draws| ensures 0 <= draws[a].y < canvasHeight {
        BaselineInCanvas(height, a, |lines|);
      }
    }
    r := Made(image);
  }

  // ---------------------------------------------------------------------
  // main

  /** How a run of the program ends, up to writing the file: no argument
      (exit status 1), the size error `makeImage` throws, or the image that
      is then written to `wallpaper.png` and installed as the wallpaper. */
  datatype RunOutcome = MissingText | SizeError(width: int, height: int) | Rendered(image: Image)

  /** `main`: the first argument is measured, the canvas is FONTSIZE pixels per
      unit of weighted width and one FONTSIZE band per line. It fails with a
      size error exactly when the text is empty or made only of separators. */
  method RenderText(args: seq<JString>) returns (r: RunOutcome)
    ensures args == [] <==> r == MissingText
    ensures args != [] ==> (r.SizeError? <==> StripTrailingSeparators(args[0]) == [])
    ensures r.Rendered? ==> r.image.width == 20 * MaxWeight(Split(args[0]))
    ensures r.Rendered? ==> LaidOut(r.image, Split(args[0]), CanvasWidth(MaxWeight(Split(args[0]))), FONTSIZE)
  {
    if |args| == 0 {
      return MissingText;
    }
    var text := args[0];
    var realWidth := GetRealFontWidth(text);
    var width := CanvasWidth(realWidth);
    var height := FONTSIZE;
    var made := MakeImage(text, width, height);
    TextWidthZeroIff(text);
    MaxWeightZeroIff(Split(text));
    match made
    case Made(image) => r := Rendered(image);
    case BadSize(w, h) => r := SizeError(w, h);
  }
}
