/**
 How the pieces meet: the OCR wrapper as the per-page OCR of `process_pdf`, and the lists
 `process_pdf` returns as the PDF result stored in the viewer session.
 */
module Pipeline {
  import opened Common
  import Strings
  import OcrProcessor
  import PdfProcessor
  import Session

  /** `extract_text_from_image` applied to a rendered (PIL) page image. */
  function PageOcr<P, R>(fromArray: R -> Option<P>, enhance: P -> Option<OcrProcessor.Grid>,
                         recognize: OcrProcessor.Prepared<R> -> Option<string>): P -> string
  {
    p => OcrProcessor.ExtractTextFromImage(OcrProcessor.Pil(p), fromArray, enhance, recognize)
  }

  /**
   With the OCR wrapper plugged in, every page of a successful run that went to OCR carries
   either the failure sentinel or exactly what the engine read from the binarised version of
   that page's own rendered image.
   */
  lemma OcrPagesComeFromEngine<Path, P, R>(path: Path, render: Path -> Option<seq<P>>,
                                           read: Path -> Option<seq<PdfProcessor.PageText>>,
                                           fromArray: R -> Option<P>, enhance: P -> Option<OcrProcessor.Grid>,
                                           recognize: OcrProcessor.Prepared<R> -> Option<string>, i: nat)
    requires PdfProcessor.Succeeds(path, render, read, PageOcr(fromArray, enhance, recognize))
    requires i < |read(path).value| && !PdfProcessor.Sufficient(read(path).value[i])
    ensures var out := PdfProcessor.ProcessPdf(path, render, read, PageOcr(fromArray, enhance, recognize));
            && i < |out.images|
            && (|| out.texts[i] == OcrProcessor.OcrFailed
                || (&& enhance(out.images[i]).Some?
                    && var g := enhance(out.images[i]).value;
                       recognize(OcrProcessor.Binary(OcrProcessor.ThresholdGrid(g))) == Some(out.texts[i])))
  {
    var ocr := PageOcr(fromArray, enhance, recognize);
    PdfProcessor.ProcessPdfSuccess(path, render, read, ocr);
    var out := PdfProcessor.ProcessPdf(path, render, read, ocr);
    assert out.texts[i] == ocr(out.images[i]);
  }

  /**
   `process_pdf` never returns more texts than images when the reader reports no more pages
   than the renderer produced, so storing its result keeps the session valid.
   */
  lemma ProcessPdfFitsSession<Path, I>(path: Path, render: Path -> Option<seq<I>>,
                                       read: Path -> Option<seq<PdfProcessor.PageText>>, ocr: I -> string,
                                       s: Session.State<I>)
    requires render(path).Some? && read(path).Some? ==> |read(path).value| <= |render(path).value|
    requires Session.Valid(s)
    ensures var out := PdfProcessor.ProcessPdf(path, render, read, ocr);
            Session.Valid(Session.Step(s, Session.PdfLoaded(out.images, out.texts)))
  {
    var out := PdfProcessor.ProcessPdf(path, render, read, ocr);
    if PdfProcessor.Succeeds(path, render, read, ocr) {
      PdfProcessor.ProcessPdfSuccess(path, render, read, ocr);
    } else {
      PdfProcessor.ProcessPdfFailure(path, render, read, ocr);
    }
    Session.StepPreservesValid(s, Session.PdfLoaded(out.images, out.texts));
  }

  /** A string of `n` copies of `c`. */
  function Repeat(c: char, n: nat): (r: string)
    ensures |r| == n && forall k :: 0 <= k < n ==> r[k] == c
  {
    seq(n, _ => c)
  }

  /** A single-character term occurs in a text only where that character does. */
  lemma SingleCharAbsent(hay: string, c: char)
    requires forall k :: 0 <= k < |hay| ==> hay[k] != c
    ensures !Strings.Contains(hay, [c])
  {
    Strings.ContainsIff(hay, [c]);
    forall i | 0 <= i <= |hay| - 1
      ensures !Strings.OccursAt(hay, [c], i)
    {
      assert hay[i..i + 1][0] == hay[i];
    }
  }

  // The scenario below: a renderer that produces one image, a reader that reports two pages
  // of long embedded text, the first all 'x', the second all 'y'.

  const PageOne: string := Repeat('x', 101)
  const PageTwo: string := Repeat('y', 101)

  function OneImage(path: int): Option<seq<int>> {
    Some([0])
  }

  function TwoPages(path: int): Option<seq<PdfProcessor.PageText>> {
    Some([PdfProcessor.Text(PageOne), PdfProcessor.Text(PageTwo)])
  }

  function NoOcr(image: int): string {
    ""
  }

  /** Both pages keep their embedded text, so two texts come back with one image. */
  lemma TwoPagesOneImage()
    ensures PdfProcessor.ProcessPdf(0, OneImage, TwoPages, NoOcr) == PdfProcessor.Output([0], [PageOne, PageTwo])
  {
    Strings.StripFixesTrimmed(PageOne);
    Strings.StripFixesTrimmed(PageTwo);
    var pages := TwoPages(0).value;
    assert PdfProcessor.Sufficient(pages[0]) && PdfProcessor.Sufficient(pages[1]);
    PdfProcessor.ProcessPdfSuccess(0, OneImage, TwoPages, NoOcr);
  }

  /** Only the second page contains "y". */
  lemma OnlySecondPageMatches()
    ensures Session.MatchingPages([PageOne, PageTwo], "y") == [1]
  {
    assert Strings.Lower("y") == "y";
    assert Strings.Lower(PageOne) == PageOne;
    assert Strings.Lower(PageTwo) == PageTwo;
    SingleCharAbsent(PageOne, 'y');
    assert !Session.Matches("y", PageOne);
    assert Strings.StartsWith(PageTwo, "y");
    assert Session.Matches("y", PageTwo);
    var texts := [PageOne, PageTwo];
    var flags := seq(|texts|, i requires 0 <= i < |texts| => Session.Matches("y", texts[i]));
    assert flags == [false, true];
    assert [false, true][..1] == [false] && [false][..0] == [];
    assert IndicesOf([false]) == [];
    assert IndicesOf(flags) == [1];
  }

  /**
   Without that agreement the bound breaks: storing the two texts and one image, then searching
   for "y" with "go to first result", moves the viewer to page index 1 of a one-page session.
   */
  lemma MisalignedReaderEscapesRange()
    ensures var out := PdfProcessor.ProcessPdf(0, OneImage, TwoPages, NoOcr);
            var s := Session.Step(Session.Step(Session.Initial<int>(), Session.UploadFile("scan.pdf")),
                                  Session.PdfLoaded(out.images, out.texts));
            var t := Session.Step(s, Session.SearchFor("y", true));
            && !Session.Valid(s)
            && t.current == 1 && t.total == 1 && !Session.PageInRange(t)
  {
    TwoPagesOneImage();
    OnlySecondPageMatches();
  }
}
