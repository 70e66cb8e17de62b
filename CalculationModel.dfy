/**
 * The records of the stain-area application: a sample point, a stored calculation,
 * the browser's decoded image, and the single state record of the processing service.
 */
module CalculationModel {
  import opened Outcomes

  /** An 8-bit channel value of the RGBA buffer. */
  type Byte = b: int | 0 <= b < 256

  /**
   * A JavaScript number as it comes out of the estimate formulas: a finite value, or the
   * NaN that a division 0 / 0 produces when no points were sampled.
   */
  datatype Num = Finite(value: real) | NaN

  /** A sample point in image coordinates; real-valued (the source draws floats). */
  datatype Point = Point(x: real, y: real)

  /** The loaded image element; only its dimensions are used by the engine. */
  datatype Image = Image(width: nat, height: nat)

  /** The canvas pixel buffer: row-major RGBA, four bytes per pixel. */
  datatype ImageData = ImageData(width: nat, height: nat, data: seq<Byte>)

  /** A buffer as the canvas produces it: exactly four bytes for every pixel. */
  predicate WellFormed(img: ImageData)
  {
    |img.data| == img.width * img.height * 4
  }

  /**
   * A finished estimate. `timestamp` (milliseconds) and `id` come from the clock and are
   * opaque here; `imageDataUrl` is the encoded thumbnail.
   */
  datatype Calculation = Calculation(
    id: string,
    fileName: string,
    imageWidth: nat,
    imageHeight: nat,
    totalPoints: nat,
    pointsInStain: nat,
    estimatedArea: Num,
    areaPercentage: Num,
    timestamp: int,
    imageDataUrl: string)

  /** The one record that the processing service replaces on every update. */
  datatype CalculationState = CalculationState(
    image: Option<Image>,
    imageData: Option<ImageData>,
    fileName: string,
    totalPoints: int,
    generatedPoints: seq<Point>,
    pointsInStain: seq<Point>,
    calculation: Option<Calculation>,
    isProcessing: bool)

  /** Requested number of sample points before the user changes it. */
  const DefaultTotalPoints: int := 1000

  /** The record the service starts from and returns to on reset. */
  const InitialState: CalculationState :=
    CalculationState(None, None, "", DefaultTotalPoints, [], [], None, false)
}
