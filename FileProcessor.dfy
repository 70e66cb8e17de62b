/**
 * The shape and file-name logic of the DICOM image extraction in `FileProcessor`, and the
 * file/folder tally of its folder listing. Pixel arrays are modelled by their shapes only:
 * the reshape step is a decision over the shape tuple, and the checks that follow it
 * reject anything that is not a non-empty 2-D image.
 */
module FileProcessor {
  import opened Outcomes
  import opened Sequences

  // ---------------------------------------------------------------------------------------
  // Shapes
  // ---------------------------------------------------------------------------------------

  /** The shape of an n-dimensional pixel array: one length per axis. */
  type Shape = seq<nat>

  /** Number of elements of an array of shape `s`. */
  function Product(s: Shape): nat
  {
    if s == [] then 1 else s[0] * Product(s[1..])
  }

  /** The integer part of the square root of `n`. */
  function Isqrt(n: nat): (r: nat)
    ensures r * r <= n < (r + 1) * (r + 1)
  {
    if n == 0 then 0
    else
      var q := Isqrt(n - 1);
      if (q + 1) * (q + 1) <= n then q + 1 else q
  }

  /** The integer square root is the only candidate for a square side. */
  lemma {:induction false} IsqrtUnique(n: nat, s: nat)
    requires s * s == n
    ensures Isqrt(n) == s
  {
    var r := Isqrt(n);
    if r < s {
      assert r + 1 <= s;
      MulMonotone(r + 1, s);
      assert false;
    } else if r > s {
      assert s + 1 <= r;
      MulMonotone(s + 1, r);
      assert false;
    }
  }

  lemma MulMonotone(a: nat, b: nat)
    requires a <= b
    ensures a * a <= b * b
  {
    assert a * a <= a * b <= b * b;
  }

  /** Why the reshape step gives no image. */
  datatype ReshapeError =
    | NotSquare(length: nat)   // a 1-D array whose length is not a perfect square
    | SliceOutOfRange          // the middle slice of an empty third axis does not exist

  /**
   * `_reshape_pixel_array` on shapes. A 3-D array with a single leading plane is squeezed to
   * that plane; otherwise one with a single trailing channel is squeezed to it; any other 3-D
   * array is cut at the middle index `c / 2` of its third axis, which NumPy rejects when that
   * axis is empty. A 1-D array of length `n` is folded into a square when `n` is a perfect
   * square and refused otherwise. Every other rank is passed through untouched.
   */
  function ReshapePixelArray(shape: Shape): (r: Result<Shape, ReshapeError>)
    ensures |shape| == 3 && shape[0] == 1 ==> r == Success(shape[1..])
    ensures |shape| == 3 && shape[0] != 1 ==>
      r == (if shape[2] == 0 then Failure(SliceOutOfRange) else Success(shape[..2]))
    ensures |shape| == 1 ==>
      (r.Success? <==> exists s: nat {:trigger s * s} :: s * s == shape[0])
    ensures |shape| == 1 && r.Success? ==> r.value == [Isqrt(shape[0]), Isqrt(shape[0])]
    ensures |shape| == 1 && r.Failure? ==> r.error == NotSquare(shape[0])
    ensures |shape| != 1 && |shape| != 3 ==> r == Success(shape)
  {
    if |shape| == 3 then
      assert shape[1..] == [shape[1], shape[2]] && shape[..2] == [shape[0], shape[1]];
      var middleSlice := shape[2] / 2;
      if shape[0] == 1 then Success([shape[1], shape[2]])
      else if shape[2] == 1 then Success([shape[0], shape[1]])
      else if middleSlice < shape[2] then Success([shape[0], shape[1]])
      else Failure(SliceOutOfRange)
    else if |shape| == 1 then
      var size := Isqrt(shape[0]);
      if size * size == shape[0] then Success([size, size])
      else
        assert forall s: nat {:trigger s * s} :: s * s == shape[0] ==> false by {
          forall s: nat | s * s == shape[0] ensures false {
            IsqrtUnique(shape[0], s);
          }
        }
        Failure(NotSquare(shape[0]))
    else Success(shape)
  }

  /**
   * The reshape never invents pixels: a squeeze or a square fold keeps every element, and a
   * slice keeps one plane of the third axis, so it times the axis length gives the whole.
   */
  lemma ReshapeKeepsPixels(shape: Shape)
    requires ReshapePixelArray(shape).Success?
    ensures var t := ReshapePixelArray(shape).value;
      if |shape| == 3 && shape[0] != 1 then Product(t) * shape[2] == Product(shape)
      else Product(t) == Product(shape)
  {
    var t := ReshapePixelArray(shape).value;
    if |shape| == 3 {
      var a, b, c := shape[0], shape[1], shape[2];
      ProductOfThree(a, b, c);
      ProductOfTwo(b, c);
      ProductOfTwo(a, b);
      assert shape == [a, b, c];
      if a != 1 {
        assert t == [a, b];
        MulAssociative(a, b, c);
      } else {
        assert t == [b, c];
      }
    } else if |shape| == 1 {
      var n := shape[0];
      var s := Isqrt(n);
      assert t == [s, s];
      ProductOfTwo(s, s);
      assert shape == [n];
      assert Product(shape) == n * Product([]);
    }
  }

  lemma MulAssociative(a: nat, b: nat, c: nat)
    ensures a * (b * c) == (a * b) * c
  {
  }

  lemma ProductOfTwo(a: nat, b: nat)
    ensures Product([a, b]) == a * b
  {
    assert [a, b][1..] == [b];
    assert [b][1..] == [];
    assert Product([b]) == b * 1;
  }

  lemma ProductOfThree(a: nat, b: nat, c: nat)
    ensures Product([a, b, c]) == a * (b * c)
  {
    assert [a, b, c][1..] == [b, c];
    ProductOfTwo(b, c);
  }

  // ---------------------------------------------------------------------------------------
  // Checks before an image is written
  // ---------------------------------------------------------------------------------------

  /** Why `_extract_and_save_image` writes nothing. */
  datatype ExtractError =
    | NoPixelData                      // the dataset carries no pixel array
    | EmptyPixelArray                  // `np.min` of a zero-size array raises `ValueError`
    | ReshapeFailed(reason: ReshapeError)
    | NotTwoDimensional(shape: Shape)  // the reshaped array is not a 2-D image
    | InvalidDimensions(shape: Shape)  // the reshaped image has an empty axis

  /** An array has elements exactly when none of its axes is empty. */
  lemma {:induction false} ProductPositive(s: Shape)
    ensures Product(s) > 0 <==> forall i :: 0 <= i < |s| ==> s[i] > 0
  {
    if s != [] {
      ProductPositive(s[1..]);
      assert forall i :: 1 <= i < |s| ==> s[i] == s[1..][i - 1];
    }
  }

  /**
   * The shape an image is saved with: the value range printed before the reshape (which
   * fails on an array without elements, and the caller catches that), the reshape step,
   * then the two checks of `_extract_and_save_image`. `None` stands for a dataset without
   * a pixel array.
   */
  function ImageShape(pixels: Option<Shape>): (r: Result<Shape, ExtractError>)
    ensures pixels.None? ==> r == Failure(NoPixelData)
    ensures pixels.Some? && Product(pixels.value) == 0 ==> r == Failure(EmptyPixelArray)
    ensures r.Success? ==> |r.value| == 2 && r.value[0] > 0 && r.value[1] > 0
    ensures pixels.Some? && Product(pixels.value) > 0 && ReshapePixelArray(pixels.value).Failure? ==>
      r == Failure(ReshapeFailed(ReshapePixelArray(pixels.value).error))
  {
    match pixels
    case None => Failure(NoPixelData)
    case Some(shape) =>
      if Product(shape) == 0 then Failure(EmptyPixelArray)
      else
        match ReshapePixelArray(shape)
        case Failure(e) => Failure(ReshapeFailed(e))
        case Success(t) =>
          if |t| != 2 then Failure(NotTwoDimensional(t))
          else if t[0] == 0 || t[1] == 0 then Failure(InvalidDimensions(t))
          else Success(t)
  }

  /**
   * The pixel arrays that become an image: a non-empty 2-D array, a 3-D array without an
   * empty axis, or a 1-D array whose length is a positive perfect square.
   */
  ghost predicate SavableShape(shape: Shape)
  {
    || (|shape| == 2 && shape[0] > 0 && shape[1] > 0)
    || (|shape| == 3 && shape[0] > 0 && shape[1] > 0 && shape[2] > 0)
    || (|shape| == 1 && shape[0] > 0 && exists s: nat {:trigger s * s} :: s * s == shape[0])
  }

  /** Which pixel arrays yield an image, rank by rank. */
  lemma ImageShapeAccepts(shape: Shape)
    ensures ImageShape(Some(shape)).Success? <==> SavableShape(shape)
  {
    ProductPositive(shape);
    var r := ReshapePixelArray(shape);
    if |shape| == 3 {
      assert shape[1..] == [shape[1], shape[2]];
    } else if |shape| == 1 && r.Success? {
      var s := Isqrt(shape[0]);
      if shape[0] > 0 {
        assert s > 0;
      }
    }
  }

  /** An array with an empty axis, and only such an array, stops at the printed value range. */
  lemma EmptyArrayRejected(shape: Shape)
    ensures ImageShape(Some(shape)) == Failure(EmptyPixelArray) <==> exists i :: 0 <= i < |shape| && shape[i] == 0
  {
    ProductPositive(shape);
  }

  /**
   * For an array with elements, the only refusals are a 1-D length that is not a square
   * and a rank other than 1, 2 or 3: the empty-third-axis slice and the empty-axis check
   * after the reshape can no longer fire.
   */
  lemma NonEmptyFailures(shape: Shape)
    requires Product(shape) > 0
    ensures var r := ImageShape(Some(shape));
      r.Failure? ==>
        || (|shape| == 1 && r.error == ReshapeFailed(NotSquare(shape[0])))
        || (|shape| != 1 && |shape| != 2 && |shape| != 3 && r.error == NotTwoDimensional(shape))
  {
    ProductPositive(shape);
    if |shape| == 3 {
      assert shape[1..] == [shape[1], shape[2]];
    } else if |shape| == 1 {
      var s := Isqrt(shape[0]);
      if s * s == shape[0] {
        assert s > 0;
      }
    }
  }

  /** Arrays of rank four or more are refused: as empty when an axis is empty, else by rank. */
  lemma HighRankRejected(shape: Shape)
    requires |shape| >= 4
    ensures ImageShape(Some(shape)) ==
      if Product(shape) == 0 then Failure(EmptyPixelArray) else Failure(NotTwoDimensional(shape))
  {
  }

  // ---------------------------------------------------------------------------------------
  // Output file names
  // ---------------------------------------------------------------------------------------

  /** The folder, under the base path, that extracted images are written to. */
  const OutputFolder: string := "imagenes_extraidas"
  const PngSuffix: string := "_imagen.png"
  const NpySuffix: string := "_datos.npy"

  /** The index of the last occurrence of `c` in `s`, if any. */
  function LastIndexOf(s: string, c: char): (r: Option<nat>)
    ensures r.None? <==> c !in s
    ensures r.Some? ==> r.value < |s| && s[r.value] == c && c !in s[r.value + 1..]
  {
    if s == [] then None
    else if s[|s| - 1] == c then Some(|s| - 1)
    else
      var r := LastIndexOf(s[..|s| - 1], c);
      assert s == s[..|s| - 1] + [s[|s| - 1]];
      r
  }

  /** `os.path.basename` with `/` as the separator: what follows the last separator. */
  function Basename(path: string): (b: string)
    ensures '/' !in b
    ensures |b| <= |path| && path[|path| - |b|..] == b
    ensures |b| < |path| ==> path[|path| - |b| - 1] == '/'
    ensures '/' !in path ==> b == path
  {
    match LastIndexOf(path, '/')
    case None => path
    case Some(i) =>
      assert path == path[..i + 1] + path[i + 1..];
      path[i + 1..]
  }

  /** Every character of `s` is a dot. */
  predicate AllDots(s: string)
  {
    forall k :: 0 <= k < |s| ==> s[k] == '.'
  }

  /**
   * Where `os.path.splitext` cuts a name without separators: at its last dot, provided some
   * character before that dot is not a dot (so `.bashrc` and `..` have no extension).
   */
  function ExtensionStart(name: string): (r: nat)
    ensures r <= |name|
    ensures r < |name| ==> name[r] == '.' && '.' !in name[r + 1..] && !AllDots(name[..r])
  {
    match LastIndexOf(name, '.')
    case None => |name|
    case Some(d) => if AllDots(name[..d]) then |name| else d
  }

  /** `os.path.splitext(name)[0]`: the name without its extension. */
  function Stem(name: string): string
  {
    name[..ExtensionStart(name)]
  }

  /** `os.path.splitext(name)[1]`: the extension, dot included, or empty. */
  function Extension(name: string): string
  {
    name[ExtensionStart(name)..]
  }

  /** The two halves of `splitext` put back together give the name again. */
  lemma SplitExtRoundTrip(name: string)
    ensures Stem(name) + Extension(name) == name
    ensures Extension(name) == [] || (Extension(name)[0] == '.' && '.' !in Extension(name)[1..])
  {
    var r := ExtensionStart(name);
    assert name == name[..r] + name[r..];
    if r < |name| {
      assert Extension(name)[1..] == name[r + 1..];
    }
  }

  /** Appending an extension to a stem that is not all dots is undone by `Stem`. */
  lemma {:induction false} StemOfExtended(stem: string, ext: string)
    requires !AllDots(stem)
    requires |ext| > 0 && ext[0] == '.' && '.' !in ext[1..]
    ensures Stem(stem + ext) == stem && Extension(stem + ext) == ext
  {
    var name := stem + ext;
    var d := |stem|;
    LastIndexOfIs(name, '.', d);
    assert name[..d] == stem;
    assert name[d..] == ext;
  }

  /** The last occurrence of `c` is at `d` when `s[d]` is `c` and no later character is. */
  lemma {:induction false} LastIndexOfIs(s: string, c: char, d: nat)
    requires d < |s| && s[d] == c
    requires forall k :: d < k < |s| ==> s[k] != c
    ensures LastIndexOf(s, c) == Some(d)
  {
    if d < |s| - 1 {
      var prefix := s[..|s| - 1];
      LastIndexOfIs(prefix, c, d);
    }
  }

  /** The PNG written for the DICOM file `filename`, relative to the base path. */
  function PngPath(filename: string): string
  {
    OutputFolder + "/" + Stem(Basename(filename)) + PngSuffix
  }

  /** The NumPy fallback written for `filename`, relative to the base path. */
  function NpyPath(filename: string): string
  {
    OutputFolder + "/" + Stem(Basename(filename)) + NpySuffix
  }

  /**
   * Both outputs sit directly in the output folder and carry the same stem: the DICOM
   * file's name with its directories and its extension removed.
   */
  lemma OutputNamesShareStem(filename: string)
    ensures var stem := Stem(Basename(filename));
      && '/' !in stem
      && PngPath(filename)[..|OutputFolder| + 1] == OutputFolder + "/"
      && NpyPath(filename)[..|OutputFolder| + 1] == OutputFolder + "/"
      && PngPath(filename)[|OutputFolder| + 1..] == stem + PngSuffix
      && NpyPath(filename)[|OutputFolder| + 1..] == stem + NpySuffix
  {
    var b := Basename(filename);
    var stem := Stem(b);
    assert stem == b[..ExtensionStart(b)];
    assert forall k :: 0 <= k < |stem| ==> stem[k] == b[k];
  }

  /** A DICOM file named `<dirs>/<stem>.dcm` is extracted to `imagenes_extraidas/<stem>_imagen.png`. */
  lemma DicomFileName(dirs: string, stem: string)
    requires '/' !in stem && !AllDots(stem)
    ensures PngPath(dirs + "/" + stem + ".dcm") == OutputFolder + "/" + stem + PngSuffix
    ensures NpyPath(dirs + "/" + stem + ".dcm") == OutputFolder + "/" + stem + NpySuffix
  {
    var path := dirs + "/" + stem + ".dcm";
    var b := stem + ".dcm";
    LastIndexOfIs(path, '/', |dirs|);
    assert path[|dirs| + 1..] == b;
    StemOfExtended(stem, ".dcm");
  }

  /** What `_extract_and_save_image` leaves on disk. */
  datatype SavedImage = SavedPng(path: string) | SavedNpy(path: string) | NothingSaved

  /**
   * `_extract_and_save_image` after the pixel data is read: the checks above, then the PNG,
   * and the NumPy file only when the PNG could not be written. Whether each write succeeds
   * is decided by the file system and is given as `pngWritten` and `npyWritten`. Something
   * is attempted exactly for a savable pixel array, and a failure carries the first check
   * that refused it.
   */
  function ExtractAndSaveImage(pixels: Option<Shape>, filename: string, pngWritten: bool, npyWritten: bool)
    : (r: Result<SavedImage, ExtractError>)
    ensures r.Success? <==> pixels.Some? && SavableShape(pixels.value)
    ensures r.Failure? ==> r.error == ImageShape(pixels).error
    ensures r.Success? ==> (r.value.SavedPng? <==> pngWritten)
    ensures r.Success? && r.value.SavedPng? ==> r.value.path == PngPath(filename)
    ensures r.Success? && r.value.SavedNpy? ==> !pngWritten && npyWritten && r.value.path == NpyPath(filename)
    ensures r.Success? && r.value.NothingSaved? ==> !pngWritten && !npyWritten
  {
    var shape := ImageShape(pixels);
    assert pixels.Some? ==> (shape.Success? <==> SavableShape(pixels.value)) by {
      if pixels.Some? {
        ImageShapeAccepts(pixels.value);
      }
    }
    match shape
    case Failure(e) => Failure(e)
    case Success(_) =>
      if pngWritten then Success(SavedPng(PngPath(filename)))
      else if npyWritten then Success(SavedNpy(NpyPath(filename)))
      else Success(NothingSaved)
  }

  // ---------------------------------------------------------------------------------------
  // Folder listing
  // ---------------------------------------------------------------------------------------

  /** One directory entry, and whether it is itself a directory. */
  datatype Entry = Entry(name: string, isDir: bool)

  /** What the file system says about the folder asked for. */
  datatype PathStatus =
    | Missing
    | NotADirectory
    | Directory(entries: seq<Entry>)
    | Unlistable  // listing the folder raised an error

  datatype FolderError = DoesNotExist | NotAFolder | ListingFailed

  /** The listing's summary: all entries, then how many are files and how many folders. */
  datatype Tally = Tally(total: nat, files: nat, folders: nat)

  function Files(entries: seq<Entry>): seq<Entry>
  {
    Filter(entries, (e: Entry) => !e.isDir)
  }

  function Folders(entries: seq<Entry>): seq<Entry>
  {
    Filter(entries, (e: Entry) => e.isDir)
  }

  /** Every entry is counted once, as a file or as a folder, never both. */
  lemma {:induction false} TallyPartition(entries: seq<Entry>)
    ensures multiset(Files(entries)) + multiset(Folders(entries)) == multiset(entries)
    ensures |Files(entries)| + |Folders(entries)| == |entries|
    ensures forall e :: e in Files(entries) <==> e in entries && !e.isDir
    ensures forall e :: e in Folders(entries) <==> e in entries && e.isDir
  {
    FilterPartition(entries, (e: Entry) => !e.isDir, (e: Entry) => e.isDir);
    forall e: Entry
      ensures e in Files(entries) <==> e in entries && !e.isDir
      ensures e in Folders(entries) <==> e in entries && e.isDir
    {
      FilterMembership(entries, (e: Entry) => !e.isDir, e);
      FilterMembership(entries, (e: Entry) => e.isDir, e);
    }
  }

  lemma CountStep(entries: seq<Entry>, e: Entry)
    ensures Files(entries + [e]) == Files(entries) + (if e.isDir then [] else [e])
    ensures Folders(entries + [e]) == Folders(entries) + (if e.isDir then [e] else [])
  {
    FilterAppend(entries, [e], (e: Entry) => !e.isDir);
    FilterAppend(entries, [e], (e: Entry) => e.isDir);
  }

  /**
   * `list_folder_contents`: a missing path and a path that is not a folder are reported as
   * errors without a tally; otherwise each entry is counted as a folder or as a file.
   */
  method ListFolderContents(status: PathStatus) returns (r: Result<Tally, FolderError>)
    ensures status.Missing? <==> r == Failure(DoesNotExist)
    ensures status.NotADirectory? <==> r == Failure(NotAFolder)
    ensures status.Unlistable? <==> r == Failure(ListingFailed)
    ensures status.Directory? ==>
      r == Success(Tally(|status.entries|, |Files(status.entries)|, |Folders(status.entries)|))
  {
    match status {
      case Missing => return Failure(DoesNotExist);
      case NotADirectory => return Failure(NotAFolder);
      case Unlistable => return Failure(ListingFailed);
      case Directory(entries) =>
        var files, folders := 0, 0;
        var i := 0;
        while i < |entries|
          invariant 0 <= i <= |entries|
          invariant files == |Files(entries[..i])|
          invariant folders == |Folders(entries[..i])|
        {
          var e := entries[i];
          CountStep(entries[..i], e);
          assert entries[..i + 1] == entries[..i] + [e];
          if e.isDir {
            folders := folders + 1;
          } else {
            files := files + 1;
          }
          i := i + 1;
        }
        assert entries[..i] == entries;
        return Success(Tally(|entries|, files, folders));
    }
  }
}
