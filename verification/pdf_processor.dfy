/**
 `pdf_processor.py`: page counting, the per-page choice between embedded text and OCR, and
 plain embedded-text extraction. The pdf2image renderer, the PyPDF2 reader and the OCR wrapper
 are parameters: the renderer and the reader yield `None` when they raise, and the OCR wrapper
 is total because `extract_text_from_image` never raises.
 */
module PdfProcessor {
  import opened Common
  import Strings

  /** What `page.extract_text()` gives for one page: a string, `None`, or an exception. */
  datatype PageText = Text(s: string) | NoText | ExtractFails

  /** Embedded text whose stripped length exceeds this is kept instead of running OCR. */
  const MinEmbeddedLength: nat := 100

  /** `text and len(text.strip()) > 100`: `None` and the empty string are falsy. */
  predicate Sufficient(t: PageText) {
    t.Text? && t.s != [] && |Strings.Strip(t.s)| > MinEmbeddedLength
  }

  /**
   The text one iteration of the `process_pdf` loop appends for page `i`, or `None` when the
   iteration raises: `extract_text` fails, or OCR is needed and `images[i]` does not exist.
   */
  function PageOutcome<I>(t: PageText, i: nat, images: seq<I>, ocr: I -> string): (r: Option<string>)
    ensures Sufficient(t) ==> r == Some(t.s)
    ensures !Sufficient(t) && !t.ExtractFails? && i < |images| ==> r == Some(ocr(images[i]))
    ensures r.None? <==> t.ExtractFails? || (!Sufficient(t) && i >= |images|)
  {
    if t.ExtractFails? then None
    else if Sufficient(t) then Some(t.s)
    else if i < |images| then Some(ocr(images[i]))
    else None
  }

  /** Every one of the first `n` pages goes through its iteration without raising. */
  predicate PrefixSucceeds<I>(pages: seq<PageText>, images: seq<I>, ocr: I -> string, n: nat)
    requires n <= |pages|
  {
    forall i :: 0 <= i < n ==> PageOutcome(pages[i], i, images, ocr).Some?
  }

  /** The texts the loop has collected after its first `n` iterations, or `None` once one of
      them has raised. */
  function Collect<I>(pages: seq<PageText>, images: seq<I>, ocr: I -> string, n: nat): Option<seq<string>>
    requires n <= |pages|
    decreases n
  {
    if n == 0 then Some([])
    else
      match Collect(pages, images, ocr, n - 1)
      case None => None
      case Some(ts) =>
        match PageOutcome(pages[n - 1], n - 1, images, ocr)
        case None => None
        case Some(t) => Some(ts + [t])
  }

  /**
   The loop fails exactly when one of its iterations raises; otherwise it has collected one
   entry per page, in page order, each being what that page's iteration appended.
   */
  lemma {:induction false} CollectSpec<I>(pages: seq<PageText>, images: seq<I>, ocr: I -> string, n: nat)
    requires n <= |pages|
    ensures var r := Collect(pages, images, ocr, n);
            && (r.Some? <==> PrefixSucceeds(pages, images, ocr, n))
            && (r.Some? ==> |r.value| == n)
            && (r.Some? ==> forall i :: 0 <= i < n ==> Some(r.value[i]) == PageOutcome(pages[i], i, images, ocr))
    decreases n
  {
    if n > 0 {
      CollectSpec(pages, images, ocr, n - 1);
    }
  }

  /** The pair of lists `process_pdf` returns. */
  datatype Output<I> = Output(images: seq<I>, texts: seq<string>)

  /** The `([], [])` returned from the exception handler. */
  function Failed<I>(): Output<I> {
    Output([], [])
  }

  /**
   `process_pdf`: render every page, read the embedded text of every page the reader reports,
   keep sufficient embedded text verbatim and OCR the rendered image otherwise. Any exception
   collapses the result to `([], [])`.
   */
  function ProcessPdf<P, I>(path: P, render: P -> Option<seq<I>>, read: P -> Option<seq<PageText>>,
                            ocr: I -> string): (out: Output<I>)
    ensures render(path).None? || read(path).None? ==> out == Failed()
    ensures out.texts == [] ==> out.images == [] || (read(path).Some? && read(path).value == [])
    ensures out.texts != [] ==> read(path).Some? && |out.texts| == |read(path).value|
  {
    match render(path)
    case None => Failed()
    case Some(images) =>
      match read(path)
      case None => Failed()
      case Some(pages) =>
        CollectSpec(pages, images, ocr, |pages|);
        match Collect(pages, images, ocr, |pages|)
        case None => Failed()
        case Some(texts) => Output(images, texts)
  }

  /** `process_pdf` succeeds when rendering and reading work and no page iteration raises. */
  predicate Succeeds<P, I>(path: P, render: P -> Option<seq<I>>, read: P -> Option<seq<PageText>>,
                           ocr: I -> string)
  {
    && render(path).Some?
    && read(path).Some?
    && PrefixSucceeds(read(path).value, render(path).value, ocr, |read(path).value|)
  }

  /**
   On success the image list is the rendered list untouched, the text list has one entry per
   reader page in page order, sufficient embedded text is kept verbatim (unstripped) and every
   other page carries the OCR of its own rendered image.
   */
  lemma ProcessPdfSuccess<P, I>(path: P, render: P -> Option<seq<I>>, read: P -> Option<seq<PageText>>,
                                ocr: I -> string)
    requires Succeeds(path, render, read, ocr)
    ensures var out := ProcessPdf(path, render, read, ocr);
            var pages := read(path).value;
            && out.images == render(path).value
            && |out.texts| == |pages|
            && (forall i :: 0 <= i < |pages| && Sufficient(pages[i]) ==> out.texts[i] == pages[i].s)
            && (forall i :: 0 <= i < |pages| && !Sufficient(pages[i]) ==>
                  i < |out.images| && out.texts[i] == ocr(out.images[i]))
  {
    var pages := read(path).value;
    var images := render(path).value;
    var c := Collect(pages, images, ocr, |pages|);
    CollectSpec(pages, images, ocr, |pages|);
    forall i | 0 <= i < |pages|
      ensures Some(c.value[i]) == PageOutcome(pages[i], i, images, ocr)
    {
    }
  }

  /**
   Failure is all-or-nothing: when `process_pdf` does not succeed, both lists are empty, whatever
   partial progress the loop had made.
   */
  lemma ProcessPdfFailure<P, I>(path: P, render: P -> Option<seq<I>>, read: P -> Option<seq<PageText>>,
                                ocr: I -> string)
    ensures !Succeeds(path, render, read, ocr) <==>
            ProcessPdf(path, render, read, ocr) == Failed() &&
            !(render(path) == Some([]) && read(path) == Some([]))
    ensures !Succeeds(path, render, read, ocr) ==> ProcessPdf(path, render, read, ocr) == Failed()
  {
    if render(path).Some? && read(path).Some? {
      var pages := read(path).value;
      CollectSpec(pages, render(path).value, ocr, |pages|);
    }
  }

  /**
   The embedded text of a page that goes to OCR has no influence: replacing it with any other
   insufficient, non-failing text leaves the whole result unchanged.
   */
  lemma {:induction false} InsufficientTextIgnored<I>(pages: seq<PageText>, pages': seq<PageText>, images: seq<I>,
                                                      ocr: I -> string, n: nat)
    requires n <= |pages| == |pages'|
    requires forall i :: 0 <= i < |pages| && pages[i] != pages'[i] ==>
               !Sufficient(pages[i]) && !Sufficient(pages'[i]) &&
               !pages[i].ExtractFails? && !pages'[i].ExtractFails?
    ensures Collect(pages, images, ocr, n) == Collect(pages', images, ocr, n)
    decreases n
  {
    if n > 0 {
      InsufficientTextIgnored(pages, pages', images, ocr, n - 1);
    }
  }

  /** Once an iteration has raised, the whole of `process_pdf` fails. */
  lemma RaisingPageFails<I>(pages: seq<PageText>, images: seq<I>, ocr: I -> string, i: nat)
    requires i < |pages| && Collect(pages, images, ocr, i + 1).None?
    ensures Collect(pages, images, ocr, |pages|).None?
  {
    CollectSpec(pages, images, ocr, i + 1);
    CollectSpec(pages, images, ocr, |pages|);
    assert !PrefixSucceeds(pages, images, ocr, i + 1);
    assert !PrefixSucceeds(pages, images, ocr, |pages|);
  }

  /** An iteration that keeps sufficient embedded text appends it to what the loop collected. */
  lemma CollectKeeps<I>(pages: seq<PageText>, images: seq<I>, ocr: I -> string, n: nat, ts: seq<string>)
    requires n < |pages| && Sufficient(pages[n])
    requires Collect(pages, images, ocr, n) == Some(ts)
    ensures Collect(pages, images, ocr, n + 1) == Some(ts + [pages[n].s])
  {
  }

  /** An iteration that runs OCR appends the OCR text of the page's own image. */
  lemma CollectRunsOcr<I>(pages: seq<PageText>, images: seq<I>, ocr: I -> string, n: nat, ts: seq<string>)
    requires n < |pages| && n < |images| && !Sufficient(pages[n]) && !pages[n].ExtractFails?
    requires Collect(pages, images, ocr, n) == Some(ts)
    ensures Collect(pages, images, ocr, n + 1) == Some(ts + [ocr(images[n])])
  {
  }

  /** The first `n` reader pages that `process_pdf` sends to OCR, in ascending order. */
  function OcrPages(pages: seq<PageText>, n: nat): (r: seq<nat>)
    requires n <= |pages|
    ensures forall k :: 0 <= k < |r| ==> r[k] < n && !Sufficient(pages[r[k]])
    ensures forall i :: 0 <= i < n && !Sufficient(pages[i]) ==> i in r
    ensures forall k, l :: 0 <= k < l < |r| ==> r[k] < r[l]
  {
    IndicesOf(seq(n, i requires 0 <= i < n => !Sufficient(pages[i])))
  }

  /** Looking at one more page appends its index exactly when it goes to OCR. */
  lemma OcrPagesStep(pages: seq<PageText>, n: nat)
    requires n < |pages|
    ensures Sufficient(pages[n]) ==> OcrPages(pages, n + 1) == OcrPages(pages, n)
    ensures !Sufficient(pages[n]) ==> OcrPages(pages, n + 1) == OcrPages(pages, n) + [n]
  {
    var flags := seq(n + 1, i requires 0 <= i < n + 1 => !Sufficient(pages[i]));
    assert flags[..n] == seq(n, i requires 0 <= i < n => !Sufficient(pages[i]));
  }

  /**
   One iteration of the page loop of `process_pdf` for page `i`: keep sufficient embedded text,
   otherwise OCR `images[i]`; `None` when the iteration raises. Also reports whether the OCR
   wrapper was called.
   */
  method ProcessPage<I>(pages: seq<PageText>, images: seq<I>, ocr: I -> string, i: nat,
                        collected: seq<string>, calls: seq<nat>)
    returns (next: Option<seq<string>>, calls': seq<nat>)
    requires i < |pages|
    requires Collect(pages, images, ocr, i) == Some(collected)
    requires calls == OcrPages(pages, i)
    ensures next == Collect(pages, images, ocr, i + 1)
    ensures next.Some? ==> calls' == OcrPages(pages, i + 1)
  {
    calls' := calls;
    var text := pages[i];
    if text.ExtractFails? {
      return None, calls';
    }
    OcrPagesStep(pages, i);
    if Sufficient(text) {
      CollectKeeps(pages, images, ocr, i, collected);
      return Some(collected + [text.s]), calls';
    }
    if i >= |images| {
      return None, calls';
    }
    CollectRunsOcr(pages, images, ocr, i, collected);
    calls' := calls' + [i];
    return Some(collected + [ocr(images[i])]), calls';
  }

  /**
   The `for i, page in enumerate(pdf_reader.pages)` loop of `process_pdf`, also reporting the
   page indices on which the OCR wrapper was called. It computes `Collect`, and when no
   iteration raises, OCR ran on exactly the pages whose embedded text is insufficient, once each
   and in page order.
   */
  method SelectTexts<I>(pages: seq<PageText>, images: seq<I>, ocr: I -> string)
    returns (texts: Option<seq<string>>, ocrCalls: seq<nat>)
    ensures texts == Collect(pages, images, ocr, |pages|)
    ensures texts.Some? ==> ocrCalls == OcrPages(pages, |pages|)
  {
    var extractedTexts := [];
    ocrCalls := [];
    var i := 0;
    while i < |pages|
      invariant 0 <= i <= |pages|
      invariant Collect(pages, images, ocr, i) == Some(extractedTexts)
      invariant ocrCalls == OcrPages(pages, i)
    {
      var next;
      next, ocrCalls := ProcessPage(pages, images, ocr, i, extractedTexts, ocrCalls);
      if next.None? {
        RaisingPageFails(pages, images, ocr, i);
        return None, ocrCalls;
      }
      extractedTexts := next.value;
      i := i + 1;
    }
    return Some(extractedTexts), ocrCalls;
  }

  /** `process_pdf` as written: render, read, run the page loop, and turn any exception into
      `([], [])`. Its result is `ProcessPdf`. */
  method ProcessPdfLoop<P, I>(path: P, render: P -> Option<seq<I>>, read: P -> Option<seq<PageText>>,
                              ocr: I -> string)
    returns (pdfImages: seq<I>, extractedTexts: seq<string>, ocrCalls: seq<nat>)
    ensures Output(pdfImages, extractedTexts) == ProcessPdf(path, render, read, ocr)
    ensures Succeeds(path, render, read, ocr) ==> ocrCalls == OcrPages(read(path).value, |read(path).value|)
  {
    ocrCalls := [];
    var rendered := render(path);
    if rendered.None? {
      return [], [], ocrCalls;
    }
    var reader := read(path);
    if reader.None? {
      return [], [], ocrCalls;
    }
    var texts;
    texts, ocrCalls := SelectTexts(reader.value, rendered.value, ocr);
    CollectSpec(reader.value, rendered.value, ocr, |reader.value|);
    if texts.None? {
      return [], [], ocrCalls;
    }
    return rendered.value, texts.value, ocrCalls;
  }

  /** `get_page_count`: the number of pages the reader reports, or 0 when reading raises. */
  function GetPageCount<P>(path: P, read: P -> Option<seq<PageText>>): (n: nat)
    ensures read(path).None? ==> n == 0
    ensures read(path).Some? ==> n == |read(path).value|
  {
    match read(path)
    case None => 0
    case Some(pages) => |pages|
  }

  /** What `extract_text` returned for one page, `None` included. */
  function Embedded(t: PageText): Option<string>
    requires !t.ExtractFails?
  {
    if t.Text? then Some(t.s) else None
  }

  /**
   `extract_text_from_pdf_file`: the `extract_text()` result of every page in order, or `[]`
   as soon as reading or any page's extraction raises.
   */
  function ExtractTextFromPdfFile<F>(file: F, read: F -> Option<seq<PageText>>): (r: seq<Option<string>>)
    ensures read(file).None? ==> r == []
    ensures read(file).Some? && (exists i :: 0 <= i < |read(file).value| && read(file).value[i].ExtractFails?) ==> r == []
    ensures read(file).Some? && (forall i :: 0 <= i < |read(file).value| ==> !read(file).value[i].ExtractFails?) ==>
              |r| == |read(file).value|
    ensures r != [] ==> read(file).Some? && |r| == |read(file).value|
    ensures read(file).Some? && |r| == |read(file).value| ==> forall i :: 0 <= i < |r| ==>
              (r[i] == None <==> read(file).value[i].NoText?) &&
              (r[i].Some? ==> read(file).value[i] == PageText.Text(r[i].value))
  {
    match read(file)
    case None => []
    case Some(pages) =>
      if exists i :: 0 <= i < |pages| && pages[i].ExtractFails? then []
      else seq(|pages|, i requires 0 <= i < |pages| => Embedded(pages[i]))
  }

  /**
   The page counter, the plain extractor and `process_pdf` agree on one reader: a successful run
   of either extractor yields `get_page_count` entries, and wherever `process_pdf` keeps embedded
   text it is exactly what the plain extractor returns for that page.
   */
  lemma ExtractorsAgree<P, I>(path: P, render: P -> Option<seq<I>>, read: P -> Option<seq<PageText>>,
                              ocr: I -> string)
    ensures var r := ExtractTextFromPdfFile(path, read);
            r != [] ==> |r| == GetPageCount(path, read)
    ensures Succeeds(path, render, read, ocr) ==>
              |ProcessPdf(path, render, read, ocr).texts| == GetPageCount(path, read)
    ensures Succeeds(path, render, read, ocr) ==>
              |ExtractTextFromPdfFile(path, read)| == GetPageCount(path, read)
    ensures Succeeds(path, render, read, ocr) ==>
              var r := ExtractTextFromPdfFile(path, read);
              var out := ProcessPdf(path, render, read, ocr);
              forall i :: 0 <= i < |r| && Sufficient(read(path).value[i]) ==> r[i] == Some(out.texts[i])
  {
    if Succeeds(path, render, read, ocr) {
      ProcessPdfSuccess(path, render, read, ocr);
      var pages := read(path).value;
      forall i | 0 <= i < |pages|
        ensures !pages[i].ExtractFails?
      {
        assert PageOutcome(pages[i], i, render(path).value, ocr).Some?;
      }
    }
  }
}
