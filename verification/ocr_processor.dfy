/**
 The OCR wrapper of `ocr_processor.py`: a fixed binarisation threshold applied pixel by pixel
 to a grayscale image, and `extract_text_from_image`, which turns every failure into a fixed
 sentinel string. The PIL steps before the threshold (grayscale, contrast, blur) and the
 Tesseract call are collaborators passed in as functions.
 */
module OcrProcessor {
  import opened Common

  /** An 8-bit grayscale sample (PIL mode "L"). */
  type Gray = x: int | 0 <= x <= 255

  /** A grayscale image as rows of samples. */
  type Grid = seq<seq<Gray>>

  const Cutoff: int := 150
  const White: Gray := 255
  const Black: Gray := 0

  /** The text returned whenever preprocessing or recognition raises. */
  const OcrFailed: string := "OCR processing failed."

  /** The lookup function handed to `Image.point`: samples strictly above the cutoff turn white,
      all others black. */
  function Threshold(x: Gray): (y: Gray)
    ensures y == Black || y == White
    ensures y == White <==> x > Cutoff
  {
    if x > Cutoff then White else Black
  }

  /** The cutoff is strict: 150 is still black, 151 is the first white sample. */
  lemma ThresholdCutoff()
    ensures Threshold(150) == Black
    ensures Threshold(151) == White
    ensures forall x: Gray :: x <= 150 ==> Threshold(x) == Black
  {
  }

  lemma ThresholdMonotone(x: Gray, y: Gray)
    requires x <= y
    ensures Threshold(x) <= Threshold(y)
  {
  }

  lemma ThresholdIdempotent(x: Gray)
    ensures Threshold(Threshold(x)) == Threshold(x)
  {
  }

  function ThresholdRow(row: seq<Gray>): (out: seq<Gray>)
    ensures |out| == |row|
    ensures forall j :: 0 <= j < |row| ==> out[j] == Threshold(row[j])
  {
    seq(|row|, j requires 0 <= j < |row| => Threshold(row[j]))
  }

  /** `img.point(fn, mode='1')`: the image keeps its shape and every pixel is mapped through
      `Threshold` on its own. */
  function ThresholdGrid(g: Grid): (out: Grid)
    ensures |out| == |g|
    ensures forall i :: 0 <= i < |g| ==> |out[i]| == |g[i]|
    ensures forall i, j :: 0 <= i < |g| && 0 <= j < |g[i]| ==> out[i][j] == Threshold(g[i][j])
  {
    seq(|g|, i requires 0 <= i < |g| => ThresholdRow(g[i]))
  }

  /** Every pixel of the binarised image is black or white. */
  predicate IsBinary(g: Grid) {
    forall i, j :: 0 <= i < |g| && 0 <= j < |g[i]| ==> g[i][j] == Black || g[i][j] == White
  }

  lemma ThresholdGridBinary(g: Grid)
    ensures IsBinary(ThresholdGrid(g))
  {
  }

  /** Binarising an already binarised image changes nothing. */
  lemma ThresholdGridIdempotent(g: Grid)
    ensures ThresholdGrid(ThresholdGrid(g)) == ThresholdGrid(g)
  {
    var once := ThresholdGrid(g);
    var twice := ThresholdGrid(once);
    forall i | 0 <= i < |g|
      ensures twice[i] == once[i]
    {
      assert |twice[i]| == |once[i]|;
      forall j | 0 <= j < |once[i]|
        ensures twice[i][j] == once[i][j]
      {
        ThresholdIdempotent(g[i][j]);
      }
    }
  }

  /** The result at a pixel depends only on the input at that same pixel. */
  lemma ThresholdGridLocal(g: Grid, h: Grid, i: nat, j: nat)
    requires i < |g| && i < |h| && j < |g[i]| && j < |h[i]|
    requires g[i][j] == h[i][j]
    ensures ThresholdGrid(g)[i][j] == ThresholdGrid(h)[i][j]
  {
  }

  /** What `preprocess_image` is given: a PIL image, or something else (a NumPy array) that must
      first go through `Image.fromarray`. */
  datatype Input<P, R> = Pil(image: P) | Raw(data: R)

  /** What `preprocess_image` returns: the binarised image, or the unconvertible input as it was. */
  datatype Prepared<R> = Binary(pixels: Grid) | Unconverted(data: R)

  /**
   `preprocess_image`. `fromArray` is `Image.fromarray` and `enhance` is grayscale conversion,
   contrast x2 and Gaussian blur; either yields `None` when it raises. A failed conversion is
   caught and the input is handed back unchanged; a failure while enhancing is not caught here.
   */
  function Preprocess<P, R>(input: Input<P, R>, fromArray: R -> Option<P>, enhance: P -> Option<Grid>)
    : (r: Option<Prepared<R>>)
    ensures input.Raw? && fromArray(input.data).None? ==> r == Some(Unconverted(input.data))
    ensures r.Some? && r.value.Binary? ==> IsBinary(r.value.pixels)
    ensures r.Some? && r.value.Unconverted? ==>
              input.Raw? && fromArray(input.data).None? && input.data == r.value.data
    ensures r.None? <==>
              || (input.Pil? && enhance(input.image).None?)
              || (input.Raw? && fromArray(input.data).Some? && enhance(fromArray(input.data).value).None?)
  {
    var pil := match input
      case Pil(p) => Some(p)
      case Raw(d) => fromArray(d);
    match pil
    case None => Some(Unconverted(input.data))
    case Some(p) =>
      match enhance(p)
      case None => None
      case Some(g) => ThresholdGridBinary(g); Some(Binary(ThresholdGrid(g)))
  }

  /** A convertible input is binarised with the shape the enhancement step produced. */
  lemma PreprocessKeepsShape<P, R>(input: Input<P, R>, fromArray: R -> Option<P>, enhance: P -> Option<Grid>, p: P, g: Grid)
    requires input == Pil(p) || (input.Raw? && fromArray(input.data) == Some(p))
    requires enhance(p) == Some(g)
    ensures Preprocess(input, fromArray, enhance) == Some(Binary(ThresholdGrid(g)))
    ensures |ThresholdGrid(g)| == |g|
  {
  }

  /**
   `extract_text_from_image`: preprocess, then run Tesseract (`--oem 3 --psm 6`), passed in as
   `recognize`. It never raises: any failure yields `OcrFailed`, and a successful recognition is
   returned exactly as the engine produced it.
   */
  function ExtractTextFromImage<P, R>(input: Input<P, R>, fromArray: R -> Option<P>,
                                      enhance: P -> Option<Grid>, recognize: Prepared<R> -> Option<string>)
    : (text: string)
    ensures Preprocess(input, fromArray, enhance).None? ==> text == OcrFailed
    ensures var q := Preprocess(input, fromArray, enhance);
            q.Some? && recognize(q.value).None? ==> text == OcrFailed
    ensures var q := Preprocess(input, fromArray, enhance);
            q.Some? && recognize(q.value).Some? ==> text == recognize(q.value).value
  {
    match Preprocess(input, fromArray, enhance)
    case None => OcrFailed
    case Some(q) =>
      match recognize(q)
      case None => OcrFailed
      case Some(t) => t
  }

  /** The text is either the failure sentinel or something the engine returned for an image
      that `Preprocess` produced: a binarised image or the unconvertible input. */
  lemma ExtractTextOrigin<P, R>(input: Input<P, R>, fromArray: R -> Option<P>,
                                enhance: P -> Option<Grid>, recognize: Prepared<R> -> Option<string>)
    ensures var text := ExtractTextFromImage(input, fromArray, enhance, recognize);
            || text == OcrFailed
            || exists q :: Preprocess(input, fromArray, enhance) == Some(q)
                           && recognize(q) == Some(text)
                           && (q.Binary? ==> IsBinary(q.pixels))
  {
  }
}
