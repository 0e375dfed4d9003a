# PDF & image text extractor — a Dafny model

This project models the sequential logic of a small Streamlit application. The application
extracts text from an uploaded PDF or image, shows the pages one at a time, and searches them.
Three pieces are modelled:

- **Per-page text selection** (`pdf_processor.py`, module `PdfProcessor`).
  - `process_pdf` renders every page and reads each page's embedded text.
  - It keeps embedded text whose stripped length exceeds 100 characters.
  - Otherwise it uses the OCR text of the rendered page image.
  - Any exception collapses the result to `([], [])`.
  - `get_page_count` and `extract_text_from_pdf_file` are modelled alongside it.
  - The renderer (pdf2image), the reader (PyPDF2) and the OCR wrapper are function
    parameters. A call that raises is `None`.
  - `ProcessPdf` is the function. `ProcessPdfLoop` / `SelectTexts` are the loop as written and
    are proved to compute it. They also report the pages sent to OCR.
- **OCR wrapper** (`ocr_processor.py`, module `OcrProcessor`).
  - The binarisation lookup `fn` maps samples above 150 to 255 and all others to 0. It is
    applied pixel by pixel to a grayscale grid.
  - `preprocess_image` hands back input it cannot convert, unchanged.
  - `extract_text_from_image` turns any failure into the sentinel `"OCR processing failed."`.
  - PIL's grayscale/contrast/blur step, `Image.fromarray` and Tesseract are parameters.
- **Viewer session** (`app.py`, modules `Session` and `Settings`).
  - Session state is a record; a script run's effect is a transition on it. The transitions are:
    - new-file reset;
    - storing a PDF or image result;
    - the First/Previous/Next/Last buttons and the page slider;
    - case-insensitive search with "Go to first result";
    - the view-mode radio.
  - `display_content` is the pane it would show, including the text-quality badge.
  - `Settings` covers the quality-level slider, its DPI defaults and the stored OCR level name.
  - `Valid` is the session invariant that every transition preserves whenever a stored PDF
    result has no more texts than images (`Session.Aligned`). Its main consequence is that the
    current page stays in range.

Module `Strings` gives Python's `str.strip()` (the exact `str.isspace` set), `str.lower()`,
the `in` substring test, `str.replace` and the extension part of `os.path.splitext`.
Module `Common` holds `Option` and the ascending index filter used by search and OCR
bookkeeping. Module `Pipeline` connects the pieces:

- the OCR wrapper used as `process_pdf`'s OCR;
- `process_pdf`'s lists stored in the session;
- a concrete document on which the source's two length conventions diverge.

`process_pdf` does not align its two lists:

- its text list has one entry per page the *reader* reports;
- its image list is whatever the renderer produced;
- every failure returns `([], [])`, with no placeholder pages and no per-page fallback.

Insufficient embedded text is replaced by the OCR output outright, not combined with it.
`Pipeline.TwoPagesOneImage` exhibits a run with two texts and one image.

The app.py call sites pass keywords the processors do not accept (see "## Findings" and
"## Left out"). The session lemmas therefore take a processing result as a parameter, as if
stored by a corrected call `process_pdf(temp_file_path)`:

- `Pipeline.MisalignedReaderEscapesRange` shows the consequence of the misalignment. Suppose
  such a call stored the two-texts-one-image result, and "Go to first result" was reported in
  the run that changed the term. The viewer would then move to a page index equal to the page
  count.
- The session invariant is therefore proved under the hypothesis (`Session.Aligned`) that a
  stored result has no more texts than images.
- `Pipeline.ProcessPdfFitsSession` proves that this hypothesis holds whenever the reader
  reports no more pages than the renderer.

## Model

| member | source | states |
|---|---|---|
| `Common.IndicesOf` | app.py:239-244 | The collected indices are exactly the positions whose flag holds, every one in range, strictly ascending (so without repeats). |
| `Strings.Strip` | pdf_processor.py:41 | `strip()` never lengthens a string and its result neither starts nor ends with a whitespace character. |
| `Strings.StripTrims` | pdf_processor.py:41 | The stripped text is a contiguous slice of the original with only whitespace before and after it. |
| `Strings.StripFixesTrimmed` | app.py:299 | A string already free of surrounding whitespace is returned unchanged by `strip()`. |
| `Strings.StripIdempotent` | app.py:299 | Stripping twice is the same as stripping once. |
| `Strings.StripAllSpace` | pdf_processor.py:41 | A whitespace-only page text strips to the empty string, so it never counts as sufficient. |
| `Strings.LowerIdempotent` | app.py:241 | Lower-casing an already lower-cased string changes nothing. |
| `Strings.ContainsIff` | app.py:241 | The `in` test holds exactly when the needle occurs at some offset of the haystack. |
| `Strings.ReplaceAbsent` | app.py:76 | `replace` leaves a string without the pattern unchanged. |
| `Strings.ReplaceSkipsFree` | app.py:76 | A prefix that never holds the pattern's first character passes through `replace` untouched. |
| `Strings.LastIndexOf` | app.py:114 | The result is the last position holding the character, or -1 when there is none. |
| `Strings.Extension` | app.py:114 | The extension is a suffix that starts at the last dot and contains no further dot. It is non-empty exactly when some dot has a non-dot character before it. |
| `OcrProcessor.Threshold` | ocr_processor.py:37 | The lookup yields only 0 or 255, and 255 exactly for samples strictly above 150. |
| `OcrProcessor.ThresholdCutoff` | ocr_processor.py:37 | The cutoff is strict: 150 maps to black, 151 to white, and everything up to 150 to black. |
| `OcrProcessor.ThresholdMonotone` | ocr_processor.py:37 | A brighter sample never maps to a darker one. |
| `OcrProcessor.ThresholdIdempotent` | ocr_processor.py:37 | Applying the lookup to its own output changes nothing. |
| `OcrProcessor.ThresholdRow` | ocr_processor.py:38 | A row keeps its length and each sample is mapped on its own. |
| `OcrProcessor.ThresholdGrid` | ocr_processor.py:38 | `point` keeps the image's shape and maps every pixel through the lookup independently. |
| `OcrProcessor.ThresholdGridBinary` | ocr_processor.py:37-38 | The thresholded image is purely black and white. |
| `OcrProcessor.ThresholdGridIdempotent` | ocr_processor.py:38 | Thresholding a thresholded image gives the same image. |
| `OcrProcessor.ThresholdGridLocal` | ocr_processor.py:38 | An output pixel depends only on the input pixel at the same position. |
| `OcrProcessor.Preprocess` | ocr_processor.py:16-40 | A non-PIL input that `fromarray` cannot convert is handed back as it was, and only such an input is. The call raises exactly when a PIL image was obtained and the grayscale/contrast/blur step failed on it. Every other result is a purely black-and-white image. |
| `OcrProcessor.PreprocessKeepsShape` | ocr_processor.py:17-38 | A PIL or convertible input yields the thresholded enhanced image, of the enhanced image's height. |
| `OcrProcessor.ExtractTextFromImage` | ocr_processor.py:52-63 | Never raises: a preprocessing or recognition failure gives exactly the sentinel, and a recognition result is returned unmodified. |
| `OcrProcessor.ExtractTextOrigin` | ocr_processor.py:52-63 | Every result is the sentinel or what the engine returned for the preprocessed image. |
| `PdfProcessor.PageOutcome` | pdf_processor.py:37-46 | A page keeps sufficient embedded text, takes the OCR of its own image otherwise, and raises exactly when extraction fails or the needed image is missing. |
| `PdfProcessor.CollectSpec` | pdf_processor.py:37-46 | The loop fails exactly when some iteration raises; otherwise it has one entry per page, in order, each being that page's outcome. |
| `PdfProcessor.ProcessPdf` | pdf_processor.py:17-52 | Render or read failure gives `([], [])`; an empty text list means failure or an empty reader; otherwise there is one text per reader page. |
| `PdfProcessor.ProcessPdfSuccess` | pdf_processor.py:28-48 | On success the images are the rendered list unchanged, there is one text per reader page, sufficient text is kept verbatim (unstripped), and every other page holds the OCR of its own image. |
| `PdfProcessor.ProcessPdfFailure` | pdf_processor.py:50-52 | Failure returns both lists empty; apart from the empty document, that empty pair occurs exactly when the run fails. |
| `PdfProcessor.InsufficientTextIgnored` | pdf_processor.py:41-46 | Swapping the embedded text of OCR'd pages for any other insufficient text leaves the result unchanged. |
| `PdfProcessor.RaisingPageFails` | pdf_processor.py:37-52 | One raising iteration makes the whole run fail, whatever the later pages hold. |
| `PdfProcessor.CollectKeeps` | pdf_processor.py:41-42 | An iteration with sufficient text appends that text. |
| `PdfProcessor.CollectRunsOcr` | pdf_processor.py:43-46 | An iteration without sufficient text appends the OCR of `images[i]`. |
| `PdfProcessor.OcrPages` | pdf_processor.py:40-45 | The OCR'd pages are exactly the pages without sufficient text, ascending. |
| `PdfProcessor.OcrPagesStep` | pdf_processor.py:40-45 | One more page adds its index to the OCR'd pages exactly when its text is insufficient. |
| `PdfProcessor.ProcessPage` | pdf_processor.py:37-46 | One loop iteration extends the collected texts as the loop specification says and records an OCR call exactly for insufficient pages. |
| `PdfProcessor.SelectTexts` | pdf_processor.py:37-46 | The loop computes the specified text list, and on success calls OCR once per insufficient page, in page order, and never for a sufficient one. |
| `PdfProcessor.ProcessPdfLoop` | pdf_processor.py:17-52 | `process_pdf` as written returns exactly `ProcessPdf`'s pair, with OCR run exactly on the pages lacking sufficient text. |
| `PdfProcessor.GetPageCount` | pdf_processor.py:7-15 | The reader's page count, or 0 when reading raises. |
| `PdfProcessor.ExtractTextFromPdfFile` | pdf_processor.py:54-66 | `[]` when reading or any page raises. When no page raises, there is exactly one entry per page, in order: `None` exactly for pages without text, and the page's own text otherwise. |
| `PdfProcessor.ExtractorsAgree` | pdf_processor.py:7-66 | A non-empty plain extraction has `get_page_count` entries. When `process_pdf` succeeds, both it and the plain extractor return exactly `get_page_count` entries, and wherever `process_pdf` keeps embedded text it equals the plain extractor's entry for that page. |
| `Settings.DefaultDpi` | app.py:42-55 | Fast, Standard and High Quality default to 150, 300 and 400 DPI, within the slider's 72..600. |
| `Settings.DefaultDpiMonotone` | app.py:42-46 | A higher quality level never defaults to a lower DPI. |
| `Settings.OcrQualityNames` | app.py:76 | The stored OCR levels are "fast", "standard" and "high". |
| `Settings.FastName` | app.py:76 | "Fast" is stored as "fast". |
| `Settings.StandardName` | app.py:76 | "Standard" is stored as "standard". |
| `Settings.HighName` | app.py:76 | "High Quality" is stored as "high". |
| `Settings.OcrQualityInjective` | app.py:76 | Distinct levels get distinct stored names. |
| `Session.Initial` | app.py:79-96 | A fresh session has no pages, texts, results or file name, is at page 0, is unprocessed, and is in text view. |
| `Session.Upload` | app.py:104-111 | A new file name clears pages, texts, position, count and results, marks the session unprocessed and records the name; the same name changes nothing. |
| `Session.UploadIdempotent` | app.py:104-111 | Re-uploading the same file right after is a no-op. |
| `Session.PdfUploadName` | app.py:114-117 | A file treated as a PDF ends in ".pdf" in some letter case, with some non-dot character somewhere before it. |
| `Session.PdfNameIsPdfUpload` | app.py:114-117 | Conversely, every name ending in ".pdf" in any letter case, after some non-dot character, is handled as a PDF. |
| `Session.UploadKindExamples` | app.py:114-117 | "scan.PDF" is a PDF; ".pdf" and "scan.png" are not. |
| `Session.StorePdf` | app.py:137-184 | Storing a PDF result keeps both lists, sets the page count to the number of images and marks the session processed (app.py:184); nothing else changes. |
| `Session.StoreImage` | app.py:168-184 | The corrected image upload (without `quality_level=`) yields exactly one page, one text and a page count of 1 and marks the session processed (app.py:184); nothing else changes. |
| `Session.ImageUploadAsWritten` | app.py:168-176 | As written, the image branch sets the single page and nothing else before the OCR call raises. |
| `Session.ImageUploadAsWrittenBreaksValid` | app.py:168-178 | That partial update leaves an unprocessed session with one page and a page count of 0, outside the invariant, whereas the intended `StoreImage` keeps it. |
| `Session.Navigate` | app.py:189-224 | Navigation changes only the current page, does nothing without pages, and the slider selects the page it reports. |
| `Session.NavigateKeepsPageInRange` | app.py:189-224 | Every button and slider move keeps the current page below the page count. |
| `Session.NavigateEnds` | app.py:193-211 | First goes to 0 and Last to the final page; Previous and Next move by one and stop at the ends. |
| `Session.PreviousNextInverse` | app.py:198-207 | Away from the ends, Previous undoes Next and Next undoes Previous. |
| `Session.MatchingPages` | app.py:239-244 | The results are exactly the pages containing the term ignoring case, in range and ascending. |
| `Session.Search` | app.py:231-255 | Search changes only term, results and page; it does nothing without text or with an unchanged term; an empty term clears the results; the page moves only to the first result. |
| `Session.SearchFindsExactly` | app.py:234-251 | A new term stores exactly the matching pages, ascending, and "Go to first result" lands on the lowest matching page. |
| `Session.MatchesIgnoresCase` | app.py:241 | Lower-casing the term or the text beforehand does not change whether it matches. |
| `Session.QualityOf` | app.py:299-305 | The badge is Good above 1000 stripped characters, Partial from 201 to 1000, Poor up to 200; exactly one applies. |
| `Session.QualityMonotone` | app.py:299-305 | More stripped text never gives a worse badge. |
| `Session.DisplayContent` | app.py:257-317 | A page is shown exactly when the current page is below the page count, and its banner marks a match for the current term. In text view: highlighted text exactly when the page has a text, the term is non-empty and the text is non-empty; plain text with that text's badge exactly when it has a text otherwise; the missing-text warning exactly when it has none. In image view: the page's image exactly when it has one, the missing-image warning otherwise. |
| `Session.ChooseView` | app.py:259-269 | The view mode changes only while a page is shown, and nothing else changes. |
| `Session.Step` | app.py:113-333 | An upload always applies the reset. An unprocessed session stores a PDF or image result and ignores the viewer's events. A processed session ignores further results, and its navigation, search and view events take effect. |
| `Session.InitialValid` | app.py:79-96 | The initial session satisfies the session invariant. |
| `Session.StepPreservesValid` | app.py:98-255 | For every allowed step whose stored PDF result has no more texts than images (`Aligned`), upload, store, navigation, search and view steps keep the invariant. The invariant: the page count is the number of images, the page stays in range, texts do not outnumber images, and results are ascending positions of texts. |
| `Session.ValidPaneShowsPage` | app.py:259-317 | In a valid session with pages, the pane always shows the current page and never the missing-image warning. |
| `Pipeline.OcrPagesComeFromEngine` | pdf_processor.py:43-46 | With the OCR wrapper plugged in, each OCR'd page holds the sentinel or the engine's reading of the thresholded version of its own rendered image. |
| `Pipeline.ProcessPdfFitsSession` | app.py:137-141 | When the reader reports no more pages than were rendered, storing `process_pdf`'s result (through a call without the unsupported `dpi=` keyword) keeps the session valid. |
| `Pipeline.TwoPagesOneImage` | pdf_processor.py:37-48 | A two-page reader with one rendered image and sufficient text on both pages yields two texts and one image. |
| `Pipeline.OnlySecondPageMatches` | app.py:239-244 | Searching that document for "y" finds only page index 1. |
| `Pipeline.MisalignedReaderEscapesRange` | app.py:249-250 | If that document's result is stored, the session breaks the invariant. A same-run "Go to first result" then moves to page index 1 of a one-page session. |

## Left out

- Streamlit rendering, widgets, `st.rerun`, progress bars, spinners, `st.success` and the other messages: these are presentation. Widget values enter the transitions as parameters.
- Temporary-file writing, `os.unlink` and file opening: I/O.
- PyPDF2, pdf2image and pytesseract are foreign libraries. They are modelled as parameters that either return a value or raise (`None`). The Tesseract configuration string is not interpreted.
- PIL grayscale conversion, contrast enhancement and Gaussian blur are floating-point library numerics. They are one parameter yielding an 8-bit grayscale grid; only the threshold after them is modelled.
- The `mode='1'` storage of the thresholded image (one bit per pixel, rendered as 0/255): the model keeps the 0/255 values.
- The LANCZOS resize for High Quality image uploads (app.py:161-165): floating-point numerics; the stored image is whatever the caller supplies.
- The call sites app.py:137-140 and app.py:173-176 pass `dpi=` and `quality_level=`. `process_pdf` and `extract_text_from_image` do not accept these keywords, so both calls raise `TypeError` as written.
  - Each processor is modelled by its own definition.
  - `Session.StorePdf`, `Session.StoreImage` and the `PdfLoaded`/`ImageLoaded` events model the intended, corrected calls.
  - As written, a PDF upload stores nothing: the exception comes before the assignment at app.py:137. The session stays unprocessed and the next run retries.
  - As written, an image upload leaves `pdf_pages = [image]` with a page count of 0 and the session unprocessed. That state is outside `Session.Valid`; see `Session.ImageUploadAsWritten`.
  - The Streamlit error display for the uncaught exception is not modelled.
- The settings `dpi`, `deskew`, `text_cleaning` and `language_detect` (app.py:72-75) are stored but never read by the processing code. Only the DPI defaults and the OCR level name are modelled.
- The regular-expression highlight (app.py:288-296): the pane records that the text is highlighted with the term, but not the substituted markdown.
- `print` logging in the exception handlers.
- Strings.Lower: ASCII case folding only. Python's `str.lower()` also folds non-ASCII letters, so search matching is weaker than the source for non-ASCII text.
- Strings.Extension: models `os.path.splitext` on a bare file name with no directory separators, which is what an uploaded file's name is.
- Session.Navigate: requires the slider value to lie in 1..page count, because the Streamlit slider only reports values in that range.
- Session.Search: "Go to first result" is a boolean parameter of the run that changed the term. As written the jump never happens: the click starts a new run in which the term is unchanged, so the button is not drawn again and its click is not seen. `goFirst` models the intended same-run click.
- Session.DisplayContent: the current page is a natural number, so the source's behaviour for a negative `current_page` (which no transition produces) is not modelled.
- `view_mode` is the two-valued `ViewMode`, because the radio only offers "Text" and "Original". Other strings in that key are not modelled.

## Findings

| source | as written | input that shows it | evidently intended | confidence | as-written member | corrected member |
|---|---|---|---|---|---|---|
| app.py:168-178 | `pdf_pages` is set to `[image]`, then `extract_text_from_image(image, quality_level=...)` raises `TypeError` because the wrapper takes only `image` (ocr_processor.py:42) | any PNG/JPEG/TIFF upload into a fresh session | store one page, one text and a page count of 1, and mark the file processed | high; not executed | `Session.ImageUploadAsWrittenBreaksValid` | `Session.StoreImage` |
