/**
 * The Monte Carlo stain-area engine: a pixel classifier, a sampler fed by an injected
 * random source, the area/percentage estimator, and the service object whose single
 * state record every operation replaces.
 */
module ImageProcessing {
  import opened Outcomes
  import opened Sequences
  import opened CalculationModel

  /** A pixel belongs to the stain when the mean of its R, G and B exceeds this value. */
  const BrightnessThreshold: real := 127.0

  /* ---------------------------------------------------------------- classifier */

  /**
   * The classifier. Coordinates are floored to pixel indices; a pixel outside the image
   * is never in the stain. A read past the end of the buffer yields `undefined` in the
   * source, whose arithmetic is NaN and never exceeds the threshold; the channel at
   * offset 3 (alpha) is never read.
   */
  predicate IsPointInStain(p: Point, img: ImageData)
  {
    var x := p.x.Floor;
    var y := p.y.Floor;
    if x < 0 || x >= img.width || y < 0 || y >= img.height then false
    else
      var index := (y * img.width + x) * 4;
      if index + 2 >= |img.data| then false
      else
        var brightness := (img.data[index] as int + img.data[index + 1] as int + img.data[index + 2] as int) as real / 3.0;
        brightness > BrightnessThreshold
  }

  /** Sum of the red, green and blue channels of pixel number `q` (row-major), 0 when absent. */
  function RgbSum(img: ImageData, q: nat): int
  {
    if 4 * q + 2 < |img.data| then img.data[4 * q] as int + img.data[4 * q + 1] as int + img.data[4 * q + 2] as int else 0
  }

  lemma PixelInBuffer(x: int, y: int, w: int, h: int)
    requires 0 <= x < w && 0 <= y < h
    ensures 0 <= y * w + x < w * h
  {
    assert y * w + x < y * w + w == (y + 1) * w;
    assert (y + 1) * w <= h * w by {
      assert y + 1 <= h;
    }
  }

  /**
   * What the classifier decides, in closed form: a point is in the stain exactly when its
   * floored coordinates lie in [0,width) x [0,height) and the R+G+B sum of that pixel
   * exceeds 381 (a mean above 127).
   */
  lemma ClassifierSpec(p: Point, img: ImageData)
    requires WellFormed(img)
    ensures IsPointInStain(p, img) <==>
      (0 <= p.x.Floor < img.width && 0 <= p.y.Floor < img.height &&
       RgbSum(img, p.y.Floor * img.width + p.x.Floor) > 381)
  {
    var x, y := p.x.Floor, p.y.Floor;
    if 0 <= x < img.width && 0 <= y < img.height {
      PixelInBuffer(x, y, img.width, img.height);
      assert (y * img.width + x) * 4 + 2 < |img.data|;
    }
  }

  /** The alpha channel has no influence: buffers that differ only at alpha offsets classify alike. */
  lemma AlphaIgnored(p: Point, img: ImageData, other: ImageData)
    requires other.width == img.width && other.height == img.height && |other.data| == |img.data|
    requires forall i :: 0 <= i < |img.data| && i % 4 != 3 ==> other.data[i] == img.data[i]
    ensures IsPointInStain(p, img) == IsPointInStain(p, other)
  {
    var x, y := p.x.Floor, p.y.Floor;
    if 0 <= x < img.width && 0 <= y < img.height {
      var index := (y * img.width + x) * 4;
      if index + 2 < |img.data| {
        assert index % 4 == 0;
        assert other.data[index] == img.data[index];
        assert other.data[index + 1] == img.data[index + 1];
        assert other.data[index + 2] == img.data[index + 2];
      }
    }
  }

  /** The points of a sample that the classifier places in the stain, in sample order. */
  function InStain(points: seq<Point>, img: ImageData): seq<Point>
  {
    Filter(points, (q: Point) => IsPointInStain(q, img))
  }

  /**
   * The stain subset is a subsequence of the sample, no longer than it, and holds exactly
   * the sample points that the classifier accepts.
   */
  lemma InStainIsClassifiedSubsequence(points: seq<Point>, img: ImageData)
    ensures |InStain(points, img)| <= |points|
    ensures IsSubsequence(InStain(points, img), points)
    ensures forall q :: q in InStain(points, img) <==> q in points && IsPointInStain(q, img)
  {
    FilterIsSubsequence(points, (q: Point) => IsPointInStain(q, img));
    forall q
      ensures q in InStain(points, img) <==> q in points && IsPointInStain(q, img)
    {
      FilterMembership(points, (q: Point) => IsPointInStain(q, img), q);
    }
  }

  /* ---------------------------------------------------------------- sampler */

  /** The source of `Math.random()`: draw number `i` of the session. */
  type RandomSource = nat -> real

  /** `Math.random()` returns values in [0, 1). */
  ghost predicate Uniform(rng: RandomSource)
  {
    forall i: nat :: 0.0 <= rng(i) < 1.0
  }

  /** Point `i` of a sample: its x uses draw 2i, its y draw 2i+1, scaled by the image size. */
  function Draw(rng: RandomSource, i: nat, width: nat, height: nat): Point
  {
    Point(rng(2 * i) * width as real, rng(2 * i + 1) * height as real)
  }

  /** The number of iterations of `for (i = 0; i < total; i++)`: none for a non-positive total. */
  function LoopCount(total: int): nat
  {
    if total > 0 then total else 0
  }

  /** The `n` points drawn in order. */
  function Samples(rng: RandomSource, n: nat, width: nat, height: nat): seq<Point>
  {
    seq(n, i requires 0 <= i => Draw(rng, i, width, height))
  }

  /** Every point lies in [0,width) x [0,height). */
  ghost predicate InsideBox(points: seq<Point>, width: nat, height: nat)
  {
    forall i :: 0 <= i < |points| ==> 0.0 <= points[i].x < width as real && 0.0 <= points[i].y < height as real
  }

  lemma ScaledDrawInRange(r: real, size: nat)
    requires 0.0 <= r < 1.0 && size > 0
    ensures 0.0 <= r * size as real < size as real
  {
    assert r * size as real < 1.0 * size as real;
  }

  /**
   * A sample of `n` points has exactly `n` points, each inside the image, so each floors
   * to a pixel of the image.
   */
  lemma SamplesInsideImage(rng: RandomSource, n: nat, width: nat, height: nat)
    requires Uniform(rng) && width > 0 && height > 0
    ensures |Samples(rng, n, width, height)| == n
    ensures InsideBox(Samples(rng, n, width, height), width, height)
  {
    var s := Samples(rng, n, width, height);
    forall i | 0 <= i < |s|
      ensures 0.0 <= s[i].x < width as real && 0.0 <= s[i].y < height as real
    {
      ScaledDrawInRange(rng(2 * i), width);
      ScaledDrawInRange(rng(2 * i + 1), height);
    }
  }

  /* ---------------------------------------------------------------- estimator */

  /** `Math.round`: the nearest integer, halves rounded up. */
  function Round(x: real): (r: int)
    ensures r as real - 0.5 <= x < r as real + 0.5
  {
    (x + 0.5).Floor
  }

  predicate IsInteger(v: real)
  {
    v == v.Floor as real
  }

  /** Rounding keeps a value inside an interval whose ends are integers. */
  lemma RoundWithin(x: real, lo: int, hi: int)
    requires lo as real <= x <= hi as real
    ensures lo <= Round(x) <= hi
  {
  }

  /** The fraction k/n of the points, scaled: it lies in [0, scale] when k <= n. */
  lemma ScaledFraction(scale: nat, inside: nat, total: nat)
    requires total > 0
    ensures 0.0 <= scale as real * (inside as real / total as real)
    ensures inside <= total ==> scale as real * (inside as real / total as real) <= scale as real
  {
    var q := inside as real / total as real;
    assert 0.0 <= q;
    if inside <= total {
      assert q <= 1.0;
      assert scale as real * q <= scale as real * 1.0;
    }
  }

  /**
   * The estimated area `round(W*H * (k/n))`. With no points the source divides 0 by 0 and
   * stores NaN. Otherwise the value is the integer nearest to the exact estimate (halves
   * up), and it lies in [0, W*H] when k <= n.
   */
  function EstimatedArea(imageArea: nat, inside: nat, total: nat): (r: Num)
    ensures total == 0 ==> r == NaN
    ensures total > 0 ==>
      && r.Finite? && IsInteger(r.value)
      && r.value - 0.5 <= imageArea as real * (inside as real / total as real) < r.value + 0.5
    ensures total > 0 && inside <= total ==> 0.0 <= r.value <= imageArea as real
  {
    if total == 0 then NaN
    else
      var exact := imageArea as real * (inside as real / total as real);
      ScaledFraction(imageArea, inside, total);
      var rounded := Round(exact);
      assert inside <= total ==> 0 <= rounded <= imageArea by {
        if inside <= total {
          RoundWithin(exact, 0, imageArea);
        }
      }
      Finite(rounded as real)
  }

  /**
   * The percentage `round((k/n) * 100 * 100) / 100`, i.e. 100*k/n to two decimals. NaN with no
   * points; otherwise 100 times the value is the integer nearest to 10000*k/n, and the value
   * lies in [0, 100] when k <= n.
   */
  function AreaPercentage(inside: nat, total: nat): (r: Num)
    ensures total == 0 ==> r == NaN
    ensures total > 0 ==>
      && r.Finite? && IsInteger(r.value * 100.0)
      && r.value * 100.0 - 0.5 <= (inside as real / total as real) * 10000.0 < r.value * 100.0 + 0.5
    ensures total > 0 && inside <= total ==> 0.0 <= r.value <= 100.0
  {
    if total == 0 then NaN
    else
      var scaled := (inside as real / total as real) * 100.0 * 100.0;
      ScaledFraction(10000, inside, total);
      assert scaled == 10000.0 * (inside as real / total as real);
      var hundredths := Round(scaled);
      assert inside <= total ==> 0 <= hundredths <= 10000 by {
        if inside <= total {
          RoundWithin(scaled, 0, 10000);
        }
      }
      assert hundredths as real / 100.0 * 100.0 == hundredths as real;
      Finite(hundredths as real / 100.0)
  }

  /** Every pixel of the image is bright (R+G+B above 381). */
  ghost predicate AllPixelsBright(img: ImageData)
  {
    forall q :: 0 <= q < img.width * img.height ==> RgbSum(img, q) > 381
  }

  /** Every pixel of the image is dark (R+G+B at most 381). */
  ghost predicate AllPixelsDark(img: ImageData)
  {
    forall q :: 0 <= q < img.width * img.height ==> RgbSum(img, q) <= 381
  }

  /** When every point is inside, the estimate is the whole area and 100 percent. */
  lemma EstimateAllInside(imageArea: nat, total: nat)
    requires total > 0
    ensures EstimatedArea(imageArea, total, total) == Finite(imageArea as real)
    ensures AreaPercentage(total, total) == Finite(100.0)
  {
    var one := total as real / total as real;
    assert one == 1.0;
    assert imageArea as real * one == imageArea as real;
    var area := EstimatedArea(imageArea, total, total);
    var v := area.value.Floor;
    assert v as real - 0.5 <= imageArea as real < v as real + 0.5;
    assert v == imageArea;
    var pct := AreaPercentage(total, total);
    var h := (pct.value * 100.0).Floor;
    assert one * 10000.0 == 10000.0;
    assert h as real - 0.5 <= 10000.0 < h as real + 0.5;
    assert h == 10000;
  }

  /** When no point is inside, the estimate is 0 and 0 percent. */
  lemma EstimateNoneInside(imageArea: nat, total: nat)
    requires total > 0
    ensures EstimatedArea(imageArea, 0, total) == Finite(0.0)
    ensures AreaPercentage(0, total) == Finite(0.0)
  {
    assert 0 as real / total as real == 0.0;
  }

  lemma InsideBoxClassifier(p: Point, img: ImageData)
    requires WellFormed(img)
    requires 0.0 <= p.x < img.width as real && 0.0 <= p.y < img.height as real
    ensures 0 <= p.y.Floor * img.width + p.x.Floor < img.width * img.height
    ensures IsPointInStain(p, img) <==> RgbSum(img, p.y.Floor * img.width + p.x.Floor) > 381
  {
    ClassifierSpec(p, img);
    PixelInBuffer(p.x.Floor, p.y.Floor, img.width, img.height);
  }

  /**
   * An all-white image: every sampled point is in the stain, so (with at least one point)
   * the estimate is the whole image area and 100 percent.
   */
  lemma WhiteImageEstimate(img: ImageData, points: seq<Point>)
    requires WellFormed(img) && AllPixelsBright(img) && InsideBox(points, img.width, img.height)
    requires |points| > 0
    ensures InStain(points, img) == points
    ensures EstimatedArea(img.width * img.height, |InStain(points, img)|, |points|) == Finite((img.width * img.height) as real)
    ensures AreaPercentage(|InStain(points, img)|, |points|) == Finite(100.0)
  {
    forall i | 0 <= i < |points|
      ensures IsPointInStain(points[i], img)
    {
      InsideBoxClassifier(points[i], img);
    }
    FilterAllKept(points, (q: Point) => IsPointInStain(q, img));
    EstimateAllInside(img.width * img.height, |points|);
  }

  /**
   * An all-black image: no sampled point is in the stain, so (with at least one point) the
   * estimate is 0 and 0 percent.
   */
  lemma BlackImageEstimate(img: ImageData, points: seq<Point>)
    requires WellFormed(img) && AllPixelsDark(img) && InsideBox(points, img.width, img.height)
    requires |points| > 0
    ensures InStain(points, img) == []
    ensures EstimatedArea(img.width * img.height, |InStain(points, img)|, |points|) == Finite(0.0)
    ensures AreaPercentage(|InStain(points, img)|, |points|) == Finite(0.0)
  {
    forall i | 0 <= i < |points|
      ensures !IsPointInStain(points[i], img)
    {
      InsideBoxClassifier(points[i], img);
    }
    FilterNoneKept(points, (q: Point) => IsPointInStain(q, img));
    EstimateNoneInside(img.width * img.height, |points|);
  }

  /* ---------------------------------------------------------------- service */

  /**
   * The invariant of the state record: image and pixel buffer are loaded together with the
   * same non-zero size, every generated point lies inside the image, and `pointsInStain` is
   * always the classifier's filter of `generatedPoints`; with no image both lists are empty.
   */
  ghost predicate Consistent(s: CalculationState)
  {
    && (s.image.Some? <==> s.imageData.Some?)
    && (s.imageData.None? ==> s.generatedPoints == [] && s.pointsInStain == [])
    && (s.imageData.Some? ==>
          var img := s.imageData.value;
          && s.image.value == Image(img.width, img.height)
          && img.width > 0 && img.height > 0 && WellFormed(img)
          && InsideBox(s.generatedPoints, img.width, img.height)
          && s.pointsInStain == InStain(s.generatedPoints, img))
  }

  /** Failures of the image-load promise. */
  datatype LoadError =
    | DecodeFailed        // the browser fired `onerror`, or no 2-D canvas context exists
    | NotLoaded           // `onload` fired with a zero natural height
    | ProcessingFailed    // reading the pixels threw (a zero-width image)

  /** Failures of `calculateStainArea`. */
  datatype CalculationError =
    | NoImageLoaded       // no image or pixel buffer in the state
    | NoThumbnailCanvas   // no 2-D canvas context for the thumbnail

  /** The points `calculateStainArea` works on: the current sample, or a fresh one when there is none. */
  function PointsUsed(s: CalculationState, rng: RandomSource): seq<Point>
    requires s.imageData.Some?
  {
    if |s.generatedPoints| > 0 then s.generatedPoints
    else Samples(rng, LoopCount(s.totalPoints), s.imageData.value.width, s.imageData.value.height)
  }

  class ImageProcessingService {
    var state: CalculationState

    ghost predicate Valid()
      reads this
    {
      Consistent(state)
    }

    constructor ()
      ensures state == InitialState && Valid()
    {
      state := InitialState;
    }

    /**
     * Draws `totalPoints` points over the loaded image and classifies them. Without an image
     * it returns no points and changes nothing.
     */
    method GenerateRandomPoints(rng: RandomSource) returns (points: seq<Point>)
      requires Valid() && Uniform(rng)
      modifies this
      ensures Valid()
      ensures old(state).image.None? || old(state).imageData.None? ==> points == [] && state == old(state)
      ensures old(state).image.Some? && old(state).imageData.Some? ==>
        var img := old(state).imageData.value;
        && points == Samples(rng, LoopCount(old(state).totalPoints), img.width, img.height)
        && state == old(state).(generatedPoints := points, pointsInStain := InStain(points, img))
    {
      if state.image.None? || state.imageData.None? {
        return [];
      }
      var img := state.imageData.value;
      var width, height := state.image.value.width, state.image.value.height;
      var n := LoopCount(state.totalPoints);
      points := [];
      var i := 0;
      while i < n
        invariant 0 <= i <= n
        invariant |points| == i
        invariant forall j :: 0 <= j < i ==> points[j] == Draw(rng, j, width, height)
      {
        points := points + [Point(rng(2 * i) * width as real, rng(2 * i + 1) * height as real)];
        i := i + 1;
      }
      assert points == Samples(rng, n, width, height);
      SamplesInsideImage(rng, n, width, height);
      state := state.(generatedPoints := points, pointsInStain := InStain(points, img));
    }

    /**
     * The state update that completes an image load: the new image, buffer and file name,
     * both point lists emptied and the calculation cleared; the requested point count stays.
     */
    method ApplyLoadedImage(fileName: string, img: ImageData)
      requires Valid() && WellFormed(img) && img.width > 0 && img.height > 0
      modifies this
      ensures Valid()
      ensures state == old(state).(image := Some(Image(img.width, img.height)), imageData := Some(img),
                                   fileName := fileName, generatedPoints := [], pointsInStain := [],
                                   calculation := None)
    {
      state := state.(image := Some(Image(img.width, img.height)), imageData := Some(img),
                      fileName := fileName, generatedPoints := [], pointsInStain := [],
                      calculation := None);
    }

    /**
     * Loading a file: the decoded pixels (or the browser's failure) are given. A zero height
     * or a zero width rejects the load and leaves the state alone; otherwise the state update
     * is applied and an initial sample is drawn.
     */
    method LoadImage(fileName: string, decoded: Result<ImageData, LoadError>, rng: RandomSource)
      returns (r: Result<(), LoadError>)
      requires Valid() && Uniform(rng)
      requires decoded.Success? ==> WellFormed(decoded.value)
      modifies this
      ensures Valid()
      ensures decoded.Failure? ==> r == Failure(decoded.error) && state == old(state)
      ensures decoded.Success? && decoded.value.height == 0 ==> r == Failure(NotLoaded) && state == old(state)
      ensures decoded.Success? && decoded.value.height != 0 && decoded.value.width == 0 ==>
        r == Failure(ProcessingFailed) && state == old(state)
      ensures decoded.Success? && decoded.value.height != 0 && decoded.value.width != 0 ==>
        var img := decoded.value;
        var sample := Samples(rng, LoopCount(old(state).totalPoints), img.width, img.height);
        && r == Success(())
        && state == old(state).(image := Some(Image(img.width, img.height)), imageData := Some(img),
                                fileName := fileName, generatedPoints := sample,
                                pointsInStain := InStain(sample, img), calculation := None)
    {
      if decoded.Failure? {
        return Failure(decoded.error);
      }
      var img := decoded.value;
      if img.height == 0 {
        return Failure(NotLoaded);
      }
      if img.width == 0 {
        return Failure(ProcessingFailed);
      }
      ApplyLoadedImage(fileName, img);
      var _ := GenerateRandomPoints(rng);
      r := Success(());
    }

    /**
     * Sets the requested number of points (any integer; no bounds are enforced) and, when an
     * image is loaded, draws a fresh sample. Nothing else changes; in particular a stored
     * calculation is kept even though it no longer matches the new sample.
     */
    method SetTotalPoints(points: int, rng: RandomSource)
      requires Valid() && Uniform(rng)
      modifies this
      ensures Valid()
      ensures old(state).image.None? ==> state == old(state).(totalPoints := points)
      ensures old(state).image.Some? ==>
        var img := old(state).imageData.value;
        var sample := Samples(rng, LoopCount(points), img.width, img.height);
        && |sample| == LoopCount(points)
        && state == old(state).(totalPoints := points, generatedPoints := sample,
                                pointsInStain := InStain(sample, img))
    {
      state := state.(totalPoints := points);
      if state.image.Some? {
        var _ := GenerateRandomPoints(rng);
      }
    }

    /**
     * Estimates the stain area. Without an image it fails and changes nothing. Otherwise it
     * marks the state as processing, takes the current sample (or draws one when it is
     * empty), classifies it, and stores and returns the calculation with `totalPoints` the
     * number of points used and `pointsInStain` the number classified inside. The clock
     * reading (`id`, `timestamp`) and the encoded thumbnail are inputs; a missing thumbnail
     * canvas fails after the sample was taken and leaves `isProcessing` set.
     */
    method CalculateStainArea(rng: RandomSource, id: string, timestamp: int, thumbnail: Option<string>)
      returns (r: Result<Calculation, CalculationError>)
      requires Valid() && Uniform(rng)
      modifies this
      ensures Valid()
      ensures old(state).image.None? || old(state).imageData.None? ==>
        r == Failure(NoImageLoaded) && state == old(state)
      ensures old(state).image.Some? && old(state).imageData.Some? ==>
        var img := old(state).imageData.value;
        var used := PointsUsed(old(state), rng);
        var inside := InStain(used, img);
        && state.generatedPoints == used && state.pointsInStain == inside
        && (thumbnail.None? ==>
              && r == Failure(NoThumbnailCanvas)
              && state == old(state).(generatedPoints := used, pointsInStain := inside, isProcessing := true))
        && (thumbnail.Some? ==>
              && r.Success?
              && r.value == Calculation(id, old(state).fileName, img.width, img.height, |used|, |inside|,
                                        EstimatedArea(img.width * img.height, |inside|, |used|),
                                        AreaPercentage(|inside|, |used|), timestamp, thumbnail.value)
              && state == old(state).(generatedPoints := used, pointsInStain := inside,
                                      calculation := Some(r.value), isProcessing := false))
    {
      var current := state;
      if current.image.None? || current.imageData.None? {
        return Failure(NoImageLoaded);
      }
      state := state.(isProcessing := true);
      var points;
      if |current.generatedPoints| > 0 {
        points := current.generatedPoints;
      } else {
        points := GenerateRandomPoints(rng);
      }
      var img := current.imageData.value;
      var inside := InStain(points, img);
      var imageArea := current.image.value.width * current.image.value.height;
      var area := EstimatedArea(imageArea, |inside|, |points|);
      var percentage := AreaPercentage(|inside|, |points|);
      if thumbnail.None? {
        return Failure(NoThumbnailCanvas);
      }
      var calculation := Calculation(id, current.fileName, current.image.value.width, current.image.value.height,
                                     |points|, |inside|, area, percentage, timestamp, thumbnail.value);
      state := state.(pointsInStain := inside, calculation := Some(calculation), isProcessing := false);
      r := Success(calculation);
    }

    /** Returns to the initial record; a second reset therefore changes nothing. */
    method ResetState()
      modifies this
      ensures state == InitialState && Valid()
    {
      state := InitialState;
    }
  }
}
