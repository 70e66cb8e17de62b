# Stain-area estimator, medical-data API and DICOM file helper — a Dafny model

This project models the core of a three-part medical imaging exercise and proves properties of that model.

* **The Angular stain engine** (`ImageProcessing.dfy`, `CalculationModel.dfy`). It keeps one state record: the loaded image and its RGBA pixel buffer, the requested number of points, the current random sample, the points of that sample that fall on the stain, the last calculation and a busy flag. Every operation replaces this record. The model is the class `ImageProcessingService`, with one `state` field.
  * A point is on the stain when the pixel under it has an R+G+B mean above 127.
  * The area estimate is the image area times the fraction of sample points on the stain.
  * `Math.random()` is an injected source `rng: nat -> real` of values in [0,1). Point `i` of a sample uses draws `2i` and `2i+1`.
  * A division by zero points gives JavaScript's NaN, modelled as the `Num.NaN` value.
* **The calculation history** (`CalculationHistory.dfy`). This is a newest-first list of calculations, mirrored into browser storage after every change. The model is a class with the list and the stored snapshot as fields. Whether a storage write succeeds is an input.
* **The REST API** (`Serializers.dfy`, `ApiModels.dfy`, `ApiServices.dfy`).
  * The request validator strips the id, the device name and every data item. It refuses any of them that is blank or holds a NUL character. It then splits every data item on Python whitespace and parses the tokens as integers.
  * The statistics service computes the size, the mean, and the mean after dividing by the maximum.
  * The batch creation inserts one image-result row per payload entry. The view runs it inside a database transaction, so any failure rolls back every insert.
  * The primary-key change inserts a copy under the new key and deletes the original.
  * The tables are a `set` of device names and a `map` from primary key to row, fields of the class `Database`.
* **The DICOM/file helper** (`FileProcessor.dfy`).
  * The pixel-array reshape is modelled on shape tuples, followed by the 2-D and empty-axis checks.
  * The output file names are `imagenes_extraidas/<stem>_imagen.png` and `imagenes_extraidas/<stem>_datos.npy`.
  * The folder listing's file/folder tally runs over a list of `(name, isDir)` entries.

Two modules hold shared vocabulary. `Outcomes` has `Option` and `Result`. `Sequences` has an order-preserving `Filter`, a subsequence relation and their lemmas. The filter is what the classifier, the history removal and the folder tally all share.

Where the code and its written description differ, the model follows the code:

* `setTotalPoints` keeps a stored calculation even though it no longer matches the new sample.
* A missing thumbnail canvas makes `calculateStainArea` fail after it has set `isProcessing` and stored the sample, and the flag stays set.
* A pixel array without elements never reaches the reshape. Printing its value range with `np.min` raises a `ValueError`, which the DICOM reader catches. The model reports this as `EmptyPixelArray`. As a result, the reshape's empty-slice case and the empty-axis check after it cannot fire (`FileProcessor.NonEmptyFailures`).

## Model

| member | source | states |
|---|---|---|
| ImageProcessing.ClassifierSpec | 4.-Create-Angular-App/src/services/image-processing.service.ts:121-137 | for a well-formed buffer, a point is on the stain iff its floored coordinates lie in [0,width)×[0,height) and that pixel's R+G+B exceeds 381 (mean above 127) |
| ImageProcessing.AlphaIgnored | 4.-Create-Angular-App/src/services/image-processing.service.ts:129-136 | two buffers that differ only at alpha offsets (index mod 4 = 3) classify every point alike |
| ImageProcessing.InStainIsClassifiedSubsequence | 4.-Create-Angular-App/src/services/image-processing.service.ts:108-110 | the stain points are an order-preserving subsequence of the sample, no longer than it, holding exactly the sample points the classifier accepts |
| ImageProcessing.SamplesInsideImage | 4.-Create-Angular-App/src/services/image-processing.service.ts:97-105 | with draws in [0,1), a sample of n points has exactly n points, each with 0 ≤ x < width and 0 ≤ y < height |
| ImageProcessing.Round | 4.-Create-Angular-App/src/services/image-processing.service.ts:187-188 | `Math.round` gives the integer r with r − 0.5 ≤ x < r + 0.5 (halves round up) |
| ImageProcessing.EstimatedArea | 4.-Create-Angular-App/src/services/image-processing.service.ts:160-187 | NaN when no points were used; otherwise an integer within ½ of area·(k/n), and in [0, area] when k ≤ n |
| ImageProcessing.AreaPercentage | 4.-Create-Angular-App/src/services/image-processing.service.ts:162-188 | NaN when no points were used; otherwise a value with two decimals (value·100 an integer) within ½ of (k/n)·10000 hundredths, and in [0, 100] when k ≤ n |
| ImageProcessing.EstimateAllInside | 4.-Create-Angular-App/src/services/image-processing.service.ts:160-188 | when every point is inside, the estimate is exactly the image area and 100 percent |
| ImageProcessing.EstimateNoneInside | 4.-Create-Angular-App/src/services/image-processing.service.ts:160-188 | when no point is inside, the estimate is exactly 0 and 0 percent |
| ImageProcessing.WhiteImageEstimate | 4.-Create-Angular-App/src/services/image-processing.service.ts:139-188 | on an all-bright image every sampled point is on the stain, and the estimate is the whole area at 100 percent |
| ImageProcessing.BlackImageEstimate | 4.-Create-Angular-App/src/services/image-processing.service.ts:139-188 | on an all-dark image no sampled point is on the stain, and the estimate is 0 at 0 percent |
| ImageProcessing.ImageProcessingService.constructor | 4.-Create-Angular-App/src/services/image-processing.service.ts:8-17 | the service starts in the initial record (1000 points requested, everything else empty or false), which satisfies the state invariant |
| ImageProcessing.ImageProcessingService.GenerateRandomPoints | 4.-Create-Angular-App/src/services/image-processing.service.ts:93-119 | without an image or buffer it returns [] and changes nothing; otherwise it returns the totalPoints draws (none for a non-positive total), stores them, and stores their classifier filter as the stain points; nothing else changes and the invariant is kept |
| ImageProcessing.ImageProcessingService.ApplyLoadedImage | 4.-Create-Angular-App/src/services/image-processing.service.ts:46-54 | the load update sets image, buffer and file name, empties both point lists and clears the calculation, keeping totalPoints and the busy flag |
| ImageProcessing.ImageProcessingService.LoadImage | 4.-Create-Angular-App/src/services/image-processing.service.ts:21-68 | a decode failure, a zero height or a zero width is reported and leaves the state untouched; otherwise the load update is followed by a fresh sample of totalPoints points and its classification |
| ImageProcessing.ImageProcessingService.SetTotalPoints | 4.-Create-Angular-App/src/services/image-processing.service.ts:81-91 | sets totalPoints to any integer; with an image loaded it also draws and classifies a sample of that many points; image, file name, calculation and busy flag are unchanged |
| ImageProcessing.ImageProcessingService.CalculateStainArea | 4.-Create-Angular-App/src/services/image-processing.service.ts:139-201 | without an image it fails and changes nothing; otherwise it uses the current sample, or a fresh one when that is empty, and stores and returns a calculation whose totalPoints is the number of points used, whose pointsInStain is the number classified inside, and whose area and percentage are the estimates above; the busy flag ends false, except on a thumbnail failure, where it stays true |
| ImageProcessing.ImageProcessingService.ResetState | 4.-Create-Angular-App/src/services/image-processing.service.ts:203-214 | the state becomes the initial record, so a second reset changes nothing |
| CalculationHistory.WithoutIdSpec | 4.-Create-Angular-App/src/services/calculation-history.service.ts:22-27 | removal by id keeps an order-preserving subsequence holding exactly the entries whose id differs |
| CalculationHistory.WithoutAbsentId | 4.-Create-Angular-App/src/services/calculation-history.service.ts:22-27 | removing an id that no entry carries leaves the list unchanged |
| CalculationHistory.AddThenRemove | 4.-Create-Angular-App/src/services/calculation-history.service.ts:17-27 | adding a calculation with a fresh id and then removing that id restores the list |
| CalculationHistory.RemoveTwice | 4.-Create-Angular-App/src/services/calculation-history.service.ts:22-27 | removing the same id twice equals removing it once |
| CalculationHistory.CalculationHistoryService.constructor | 4.-Create-Angular-App/src/services/calculation-history.service.ts:13-15 | the service starts with the list loaded from the stored value |
| CalculationHistory.CalculationHistoryService.SaveToStorage | 4.-Create-Angular-App/src/services/calculation-history.service.ts:51-57 | a successful write makes the snapshot the current list; a failed write leaves the old snapshot and is not reported |
| CalculationHistory.CalculationHistoryService.AddCalculation | 4.-Create-Angular-App/src/services/calculation-history.service.ts:17-20 | the new calculation is put first, in front of the old list; after a successful write, reloading the snapshot gives the new list |
| CalculationHistory.CalculationHistoryService.RemoveCalculation | 4.-Create-Angular-App/src/services/calculation-history.service.ts:22-27 | the list becomes the old list without the entries carrying the id, and no entry carries it; after a successful write, reloading gives the new list |
| CalculationHistory.CalculationHistoryService.ClearAll | 4.-Create-Angular-App/src/services/calculation-history.service.ts:29-32 | the list becomes empty; after a successful write the snapshot is an empty array |
| Serializers.SplitFromSpec | 3.-RESTful-API/api/serializers.py:23 | `str.split()` yields non-empty tokens without whitespace whose concatenation is the input with its whitespace removed |
| Serializers.SplitJoin | 3.-RESTful-API/api/serializers.py:23 | token boundaries are exactly the whitespace: non-empty whitespace-free tokens joined by any whitespace character split back into the same tokens, never cut or merged |
| Serializers.SplitWordGap | 3.-RESTful-API/api/serializers.py:23 | a word followed by a whitespace run of any length is one token, and the split continues after the run, so `"1  2"` gives `["1", "2"]` |
| Serializers.BlankSplitsToNothing | 3.-RESTful-API/api/serializers.py:23 | an all-whitespace item splits into no tokens |
| Serializers.ParseShow | 3.-RESTful-API/api/serializers.py:23 | `int()` reads back the decimal text of every integer, so parsing inverts printing |
| Serializers.ParseTokensSpec | 3.-RESTful-API/api/serializers.py:21-25 | the tokens parse iff every token parses; then the result has one integer per token, in order |
| Serializers.ParseTokensAppend | 3.-RESTful-API/api/serializers.py:20-23 | parsing the tokens of two item lists is the concatenation of parsing each, and fails iff either fails |
| Serializers.ValidatedSpec | 3.-RESTful-API/api/serializers.py:19-28 | validation succeeds iff every token of every item parses and there is at least one token; the result lists the integers in order; any unparsable token gives the "must be numbers" error, and only a token-free input gives "cannot be empty" |
| Serializers.BlankItemIgnored | 3.-RESTful-API/api/serializers.py:21-27 | within `validate_data` alone, appending an all-whitespace item does not change the result (the list field rejects such an item before, see BlankItemRejected) |
| Serializers.ValidateData | 3.-RESTful-API/api/serializers.py:19-28 | the item-by-item loop computes exactly the validation function |
| Serializers.TrimSpec | 3.-RESTful-API/api/serializers.py:15-17 | a character field's stripping removes only surrounding whitespace: the result is a slice of the input with blank text on both sides, and it neither starts nor ends with whitespace |
| Serializers.TrimBlank | 3.-RESTful-API/api/serializers.py:15-17 | stripping yields the empty string exactly for blank text, which the field then refuses |
| Serializers.TrimKeepsNul | 3.-RESTful-API/api/serializers.py:15-17 | stripping keeps every NUL character, since NUL is not whitespace |
| Serializers.CharFieldSpec | 3.-RESTful-API/api/serializers.py:15-17 | a character field passes exactly when its value is neither blank nor holds a NUL character, and then gives the stripped value; it reports blankness exactly for blank text |
| Serializers.SplitTrim | 3.-RESTful-API/api/serializers.py:16-23 | stripping an item before `validate_data` splits it does not change its tokens |
| Serializers.ListFieldSpec | 3.-RESTful-API/api/serializers.py:16 | the list of character fields passes exactly when every item passes, and then hands on each item stripped, in order; otherwise it reports the reason of the first item refused |
| Serializers.DataFieldSpec | 3.-RESTful-API/api/serializers.py:16-28 | when some item is refused, the `data` field fails with the first refused item's blank or NUL error; when none is, its outcome is exactly `validate_data` on the items as received |
| Serializers.BlankItemRejected | 3.-RESTful-API/api/serializers.py:16 | appending a blank item to any list makes the `data` field fail: with the blank error, unless an earlier item was already refused |
| Serializers.CheckEntrySpec | 3.-RESTful-API/api/serializers.py:14-28 | an entry is valid exactly when neither id, device name nor any data item is blank or holds a NUL character and `validate_data` accepts the items; the validated entry is the stripped id and device name with the integers of the data; on failure the id and device name are reported as blank exactly when blank, and as failing exactly when they fail |
| Serializers.ValidateEntry | 3.-RESTful-API/api/serializers.py:14-28 | the field-by-field validation, with the `validate_data` loop, computes exactly the entry check |
| ApiModels.Database.constructor | 3.-RESTful-API/api/models.py:3-16 | the empty tables satisfy the key and device-link invariant |
| ApiModels.Database.IdExistsIsQuery | 3.-RESTful-API/api/models.py:21-24 | under the table invariant, `id_exists` holds exactly when some stored row carries that id |
| ApiModels.Database.GetOrCreateDevice | 3.-RESTful-API/api/models.py:28 | afterwards the device name is present; it was created iff it was absent before |
| ApiModels.Database.UpdateDevice | 3.-RESTful-API/api/models.py:26-30 | the row's device becomes the given name and its update time is refreshed, and nothing else in the row or the table changes; the device table gains the name only if it was absent, so a repeated call adds nothing |
| ApiServices.MaxSpec | 3.-RESTful-API/api/services.py:14 | `max` returns an element of the list that no element exceeds |
| ApiServices.NormalizeSpec | 3.-RESTful-API/api/services.py:15 | normalisation keeps the length and divides each element by the maximum |
| ApiServices.NormalizeSum | 3.-RESTful-API/api/services.py:15-18 | the sum of the normalised values is the sum divided by the maximum |
| ApiServices.NormalizedAtMostOne | 3.-RESTful-API/api/services.py:14-15 | with a positive maximum every normalised value is at most 1, and the value 1 occurs |
| ApiServices.ProcessMedicalData | 3.-RESTful-API/api/services.py:9-24 | an empty list fails with the empty-input error; a non-empty list fails iff its maximum is 0, with a division by zero; otherwise the size is the length and the first average is sum/len |
| ApiServices.NormalizedAverage | 3.-RESTful-API/api/services.py:14-18 | whenever the statistics succeed, the average after normalisation is the average before it divided by the maximum |
| ApiServices.ZeroDataFails | 3.-RESTful-API/api/services.py:14-15 | non-empty all-zero data always fails with a division by zero |
| ApiServices.AcceptedIdsFresh | 3.-RESTful-API/api/services.py:40-44 | in an accepted batch every id is new to the table and distinct from every earlier entry's id |
| ApiServices.CreateEntry | 3.-RESTful-API/api/services.py:31-58 | one loop step: the outcome is the entry's outcome against the stored keys (field checks, then duplicate id, then statistics); on success exactly that row is stored under the stripped id and the device exists; on failure no row is stored, and the device table gains the entry's device exactly when the entry passed validation |
| ApiServices.CreateFromPayload | 3.-RESTful-API/api/services.py:27-58 | the batch succeeds iff every entry is accepted at its turn; then it returns one row per entry in payload order, stores each under its stripped id, keeps all earlier rows and adds exactly the named devices; otherwise the first failing entry's error is returned, the rows of the entries before it stay beside the earlier rows, and the devices are those of the entries before it plus the failing entry's when it passed validation (undoing this is the caller's transaction) |
| ApiServices.CreateInTransaction | 3.-RESTful-API/api/views.py:16-25 | the view's `create` runs the batch all or nothing: the same success outcome, and on failure the first failing entry's error with both tables exactly as before |
| ApiServices.ChangeId | 3.-RESTful-API/api/services.py:61-78 | an id already in use is rejected with nothing changed; otherwise a copy with the new key, the same device and statistics, and fresh dates replaces the original, keeping the row count |
| FileProcessor.Isqrt | 2.-File-Handling-and-Array-Operations/Solucion.py:269 | the side candidate r satisfies r² ≤ n < (r+1)² |
| FileProcessor.IsqrtUnique | 2.-File-Handling-and-Array-Operations/Solucion.py:269-270 | when n = s², the candidate is s, so the square test accepts exactly the perfect squares |
| FileProcessor.ReshapePixelArray | 2.-File-Handling-and-Array-Operations/Solucion.py:258-277 | (1,a,b) becomes (a,b); otherwise (a,b,1) becomes (a,b); any other (a,b,c) becomes (a,b) when c > 0 and is an error when c = 0; (n) becomes (s,s) iff n is a perfect square s², and is refused with its length otherwise; every other rank is unchanged |
| FileProcessor.ReshapeKeepsPixels | 2.-File-Handling-and-Array-Operations/Solucion.py:258-277 | a squeeze or square fold keeps the element count; a middle slice keeps one plane, so its count times c is the whole |
| FileProcessor.ImageShape | 2.-File-Handling-and-Array-Operations/Solucion.py:332-361 | no pixel data and an array without elements are refused first; for an array with elements a reshape failure is passed on; an accepted shape is 2-D with both sides positive |
| FileProcessor.ImageShapeAccepts | 2.-File-Handling-and-Array-Operations/Solucion.py:332-361 | exactly these arrays yield an image: (a,b), (a,b,c) and (n) with every axis positive, the last only when n is a perfect square |
| FileProcessor.EmptyArrayRejected | 2.-File-Handling-and-Array-Operations/Solucion.py:345 | the value-range print refuses an array exactly when one of its axes is empty |
| FileProcessor.ProductPositive | 2.-File-Handling-and-Array-Operations/Solucion.py:345 | an array has elements exactly when none of its axes is empty |
| FileProcessor.NonEmptyFailures | 2.-File-Handling-and-Array-Operations/Solucion.py:347-361 | for an array with elements the only refusals are a 1-D length that is not a square and a rank other than 1, 2 or 3, so the empty-slice and empty-axis checks are unreachable |
| FileProcessor.HighRankRejected | 2.-File-Handling-and-Array-Operations/Solucion.py:345-355 | an array of rank 4 or more is refused: as empty when an axis is empty, otherwise unchanged by the reshape and rejected as not 2-D |
| FileProcessor.Basename | 2.-File-Handling-and-Array-Operations/Solucion.py:300 | the base name has no separator, is a suffix of the path, and is preceded by a separator unless it is the whole path |
| FileProcessor.ExtensionStart | 2.-File-Handling-and-Array-Operations/Solucion.py:300 | `splitext` cuts at the last dot, and only when some character before it is not a dot |
| FileProcessor.SplitExtRoundTrip | 2.-File-Handling-and-Array-Operations/Solucion.py:300 | stem + extension is the name again, and the extension is empty or a dot followed by no further dot |
| FileProcessor.StemOfExtended | 2.-File-Handling-and-Array-Operations/Solucion.py:300 | adding an extension to a stem that is not all dots is undone by the split, so splitting inverts extending |
| FileProcessor.OutputNamesShareStem | 2.-File-Handling-and-Array-Operations/Solucion.py:300-323 | the PNG and the NumPy file sit directly in `imagenes_extraidas` and are the same separator-free stem plus `_imagen.png` or `_datos.npy` |
| FileProcessor.DicomFileName | 2.-File-Handling-and-Array-Operations/Solucion.py:300-302 | `<dirs>/<stem>.dcm` is extracted to `imagenes_extraidas/<stem>_imagen.png`, with `<stem>_datos.npy` as the fallback |
| FileProcessor.ExtractAndSaveImage | 2.-File-Handling-and-Array-Operations/Solucion.py:332-368 | something is saved exactly for a pixel array of savable shape, and a refusal carries the first failing check; the PNG path is reported exactly when the PNG write succeeds, and the NumPy path only when the PNG write fails and the fallback succeeds |
| FileProcessor.TallyPartition | 2.-File-Handling-and-Array-Operations/Solucion.py:68-79 | every entry is counted exactly once: files and folders partition the entries as multisets, so their counts sum to the number of entries |
| FileProcessor.ListFolderContents | 2.-File-Handling-and-Array-Operations/Solucion.py:39-103 | a missing path, a non-directory and an unlistable folder each give their error and no tally; otherwise the loop's counters are the numbers of non-directory and directory entries |

## Left out

- Floating point: image sizes, coordinates, averages and the area estimates are exact reals, not IEEE doubles. The rounding of `Math.round` and of Python's `/` is not modelled bit for bit.
- ImageProcessing.ImageProcessingService.LoadImage: the browser decoding is given as its outcome. This covers `Image`, `onload`, the object URL, the canvas and `getImageData`. The buffer is assumed to hold width·height·4 bytes, as the canvas API guarantees. The two `setTimeout` steps are composed into one call.
- ImageProcessing.ImageProcessingService.CalculateStainArea: the 500 ms wait is not modelled, and neither is any operation that interleaves with it. The thumbnail (canvas scaling and `toDataURL`) is given as its encoded text, or as `None` when no canvas context exists. The `Date.now()` id and the timestamp are inputs, and nothing assumes they are unique.
- ImageProcessing.ImageProcessingService.SetTotalPoints: takes an integer. A fractional total, for which the JavaScript loop runs ⌈total⌉ times, is not modelled.
- CalculationHistory.CalculationHistoryService.SaveToStorage: the snapshot holds the list itself, not its JSON text. JSON turns a NaN estimate into `null` and the timestamp into a string, so the source's reload is not an exact inverse for such entries. Storage failure is an input flag.
- CalculationHistory.Loaded: stored text is given already decoded. `Malformed` stands for every text whose parsing or mapping throws. The load/save promise is stated by the `Loaded(stored) == calculations` clauses of AddCalculation, RemoveCalculation and ClearAll.
- Serializers.ParseInt: accepts an optional sign followed by ASCII digits only. Python's `int()` also accepts underscores between digits and non-ASCII decimal digits. It also refuses text of more than 4300 digits (the default integer-string limit of recent Python versions), which the model accepts. ParseShow's read-back therefore holds in the model also for integers whose decimal text the source would refuse.
- Serializers.CheckEntrySpec: the data field reports only the first refused item's reason. The framework reports every refused item by index, and the error texts are not modelled.
- ApiServices.ProcessMedicalData: averages are exact reals, so an `OverflowError` from `sum(data) / len(data)` (for example the single value 10^309) is not modelled, and the model succeeds there.
- ApiServices.CreateFromPayload: the framework's error messages are not modelled, only which field failed and why the data field did. The payload's dictionary keys are ignored, as in the source. Character fields' `max_length` and other database constraints are not checked.
- ApiServices.ChangeId and ApiModels.Database.UpdateDevice: the automatic `created_date` and `updated_date` are a clock reading passed in as `now`. The view-level `update` and `partial_update` flows are not part of this model.
- Django plumbing: URL routing, settings, admin, filters, the timing middleware, HTTP responses and cascade deletion of devices.
- FileProcessor.Isqrt: exact integer square root. The source computes `int(np.sqrt(n))` in double precision, which agrees only for lengths below about 2^52.
- FileProcessor.Basename: POSIX path semantics are assumed: only `/` separates directories. On Windows `os.path` also splits on `\` and after a drive colon, which is not modelled. The same holds for FileProcessor.ExtensionStart.
- FileProcessor.ExtractAndSaveImage: pixel values, `_normalize_pixel_array` (float scaling to 0–255), the PIL and NumPy writers, directory creation, printing and logging are not modelled. Whether each write succeeds is an input.
- FileProcessor.ListFolderContents: the `details` output is not modelled. That is file sizes in MB and modification dates, which come from the file system and the clock. Whether each entry is a directory is given with the entry.
- Solucion.py: CSV loading and statistics, the DICOM reader, basic-information and custom-tag printing, and logging setup are not modelled.
