/**
 The viewer session of `app.py`: the record kept in Streamlit's session state and the
 transitions the upload handler, the navigation buttons and slider, the search box and the
 content pane apply to it. Widgets, reruns and rendering are not modelled; a transition takes
 the value a widget returned as a parameter.
 */
module Session {
  import opened Common
  import Strings

  /** The two choices of the "View Mode" radio button. */
  datatype ViewMode = TextMode | OriginalMode

  /**
   The session-state keys of the viewer: `pdf_pages`, `current_page` (0-based), `extracted_text`,
   `total_pages`, `search_term`, `search_results`, `file_processed`, `file_name`, `view_mode`.
   */
  datatype State<I> = State(
    pages: seq<I>,
    current: nat,
    texts: seq<string>,
    total: nat,
    searchTerm: string,
    searchResults: seq<nat>,
    processed: bool,
    fileName: string,
    viewMode: ViewMode)

  /** The defaults installed the first time the script runs. */
  function Initial<I>(): (s: State<I>)
    ensures !s.processed && s.total == 0 && s.current == 0 && s.pages == [] && s.texts == []
    ensures s.searchTerm == [] && s.searchResults == [] && s.fileName == [] && s.viewMode == TextMode
  {
    State([], 0, [], 0, "", [], false, "", TextMode)
  }

  // ---------------------------------------------------------------------------------------
  // Upload

  /**
   The reset at the top of `handle_file_upload`: a file whose name differs from the stored one
   clears pages, texts, position, page count and results and marks the session unprocessed;
   the same name leaves the session alone. The search term and the view mode survive a reset.
   */
  function Upload<I>(s: State<I>, name: string): (r: State<I>)
    ensures s.fileName == name ==> r == s
    ensures s.fileName != name ==>
              r == Initial<I>().(fileName := name, searchTerm := s.searchTerm, viewMode := s.viewMode)
  {
    if s.fileName != name then
      s.(pages := [], texts := [], current := 0, total := 0, searchResults := [],
         processed := false, fileName := name)
    else
      s
  }

  /** Uploading the same file again right after is a no-op. */
  lemma UploadIdempotent<I>(s: State<I>, name: string)
    ensures Upload(Upload(s, name), name) == Upload(s, name)
    ensures Upload(s, name).fileName == name
  {
  }

  /** The upload is handled as a PDF exactly when the lower-cased extension is ".pdf". */
  predicate IsPdfUpload(name: string) {
    Strings.Lower(Strings.Extension(name)) == ".pdf"
  }

  /** A PDF upload's name ends in ".pdf" in any letter case, after at least one character that is
      not a dot. */
  lemma PdfUploadName(name: string)
    requires IsPdfUpload(name)
    ensures |name| > 4 && Strings.Lower(name[|name| - 4..]) == ".pdf"
    ensures exists k :: 0 <= k < |name| - 4 && name[k] != '.'
  {
    var ext := Strings.Extension(name);
    assert |ext| == 4;
    assert name[|name| - 4..] == ext;
  }

  /** Conversely, every name ending in ".pdf" in any letter case, after some character that is
      not a dot, is handled as a PDF. */
  lemma PdfNameIsPdfUpload(name: string)
    requires |name| > 4 && Strings.Lower(name[|name| - 4..]) == ".pdf"
    requires exists k :: 0 <= k < |name| - 4 && name[k] != '.'
    ensures IsPdfUpload(name)
  {
    var n := |name|;
    var tail := name[n - 4..];
    assert Strings.LowerChar(tail[0]) == '.' && tail[0] == name[n - 4];
    assert name[n - 4] == '.';
    forall j | n - 4 < j < n
      ensures name[j] != '.'
    {
      assert Strings.LowerChar(tail[j - (n - 4)]) != '.';
      assert tail[j - (n - 4)] == name[j];
    }
    var dot := Strings.LastIndexOf(name, '.');
    assert dot == n - 4;
    assert Strings.Extension(name) == tail;
  }

  /** Upper-case extensions count; a bare ".pdf" has no extension; other extensions are images. */
  lemma UploadKindExamples()
    ensures IsPdfUpload("scan.PDF")
    ensures !IsPdfUpload(".pdf")
    ensures !IsPdfUpload("scan.png")
  {
    assert "scan.PDF"[4] == '.' && "scan.PDF"[5] != '.' && "scan.PDF"[6] != '.' && "scan.PDF"[7] != '.';
    assert Strings.LastIndexOf("scan.PDF", '.') == 4;
    assert "scan.PDF"[0] != '.';
    assert Strings.Extension("scan.PDF") == ".PDF";
    assert Strings.Lower(".PDF") == ".pdf";
    assert Strings.LastIndexOf(".pdf", '.') == 0;
    assert Strings.Extension(".pdf") == [];
    assert "scan.png"[4] == '.' && "scan.png"[5] != '.' && "scan.png"[6] != '.' && "scan.png"[7] != '.';
    assert Strings.LastIndexOf("scan.png", '.') == 4;
    assert "scan.png"[0] != '.';
    assert Strings.Extension("scan.png") == ".png";
    assert Strings.Lower(".png")[1] == 'p';
  }

  /** Storing the lists `process_pdf` returned: the page count is the number of images. */
  function StorePdf<I>(s: State<I>, images: seq<I>, texts: seq<string>): (r: State<I>)
    ensures r.processed && r.total == |r.pages| && r.pages == images && r.texts == texts
    ensures r.(pages := s.pages, texts := s.texts, total := s.total, processed := s.processed) == s
  {
    s.(pages := images, texts := texts, total := |images|, processed := true)
  }

  /** Storing an OCR'd image upload: exactly one page, one text and a page count of 1. */
  function StoreImage<I>(s: State<I>, image: I, text: string): (r: State<I>)
    ensures r.processed && r.total == 1 && |r.pages| == 1 && |r.texts| == 1
    ensures r.pages[0] == image && r.texts[0] == text
    ensures r.(pages := s.pages, texts := s.texts, total := s.total, processed := s.processed) == s
  {
    s.(pages := [image], texts := [text], total := 1, processed := true)
  }

  /**
   The image branch of `handle_file_upload` as the call sites are written: `pdf_pages` is
   assigned, then `extract_text_from_image(image, quality_level=...)` raises `TypeError` (the
   wrapper takes no such keyword) before the texts, the page count or the processed flag are set.
   */
  function ImageUploadAsWritten<I>(s: State<I>, image: I): (r: State<I>)
    ensures |r.pages| == 1 && r.pages[0] == image
    ensures r.(pages := s.pages) == s
  {
    s.(pages := [image])
  }

  /** That partial update leaves a fresh session with one page but a page count of 0 and still
      unprocessed, which `Valid` rules out; `StoreImage` is the intended update. */
  lemma ImageUploadAsWrittenBreaksValid<I>(s: State<I>, image: I)
    requires Valid(s) && !s.processed
    ensures var r := ImageUploadAsWritten(s, image);
            && !r.processed && r.total == 0 && |r.pages| == 1
            && !Valid(r)
            && Valid(StoreImage(s, image, []))
  {
  }

  // ---------------------------------------------------------------------------------------
  // Navigation

  /** The four buttons and the page slider, whose value is a 1-based page number. */
  datatype NavAction = First | Previous | Next | Last | Slide(value: int)

  /** The slider only ever reports a value between 1 and the page count. */
  predicate SliderInRange<I>(s: State<I>, a: NavAction) {
    a.Slide? ==> 1 <= a.value <= s.total
  }

  /**
   `display_navigation_controls`. The controls exist only while there is at least one page, and
   the slider only while there are two. Previous and Next stop at the ends instead of wrapping.
   Only the current page can change.
   */
  function Navigate<I>(s: State<I>, a: NavAction): (r: State<I>)
    requires SliderInRange(s, a)
    ensures r == s.(current := r.current)
    ensures s.total == 0 ==> r == s
    ensures a.Slide? && s.total > 1 ==> r.current + 1 == a.value
  {
    if s.total == 0 then s
    else
      match a
      case First => s.(current := 0)
      case Previous => if s.current > 0 then s.(current := s.current - 1) else s
      case Next => if s.current < s.total - 1 then s.(current := s.current + 1) else s
      case Last => s.(current := s.total - 1)
      case Slide(v) => if s.total > 1 && v - 1 != s.current then s.(current := v - 1) else s
  }

  /** The current page is a real page, or there are no pages and it is 0. */
  predicate PageInRange<I>(s: State<I>) {
    s.current < s.total || (s.total == 0 && s.current == 0)
  }

  /** Every navigation action keeps the current page in range, whatever the action. */
  lemma NavigateKeepsPageInRange<I>(s: State<I>, a: NavAction)
    requires SliderInRange(s, a) && PageInRange(s)
    ensures PageInRange(Navigate(s, a))
  {
  }

  /** First and Last land on the ends; Previous and Next move by one unless already at an end. */
  lemma NavigateEnds<I>(s: State<I>)
    requires s.total > 0 && PageInRange(s)
    ensures Navigate(s, First).current == 0
    ensures Navigate(s, Last).current == s.total - 1
    ensures Navigate(s, Previous).current == if s.current == 0 then 0 else s.current - 1
    ensures Navigate(s, Next).current == if s.current == s.total - 1 then s.current else s.current + 1
  {
  }

  /** Previous undoes Next away from the last page, and Next undoes Previous away from the first. */
  lemma PreviousNextInverse<I>(s: State<I>)
    requires PageInRange(s)
    ensures s.current + 1 < s.total ==> Navigate(Navigate(s, Next), Previous) == s
    ensures 0 < s.current ==> Navigate(Navigate(s, Previous), Next) == s
  {
  }

  // ---------------------------------------------------------------------------------------
  // Search

  /** `search_term.lower() in text.lower()`, with ASCII case folding. */
  predicate Matches(term: string, text: string) {
    Strings.Contains(Strings.Lower(text), Strings.Lower(term))
  }

  /** The pages whose text contains the term, ignoring case, in ascending page order. */
  function MatchingPages(texts: seq<string>, term: string): (r: seq<nat>)
    ensures forall k :: 0 <= k < |r| ==> r[k] < |texts| && Matches(term, texts[r[k]])
    ensures forall i :: 0 <= i < |texts| && Matches(term, texts[i]) ==> i in r
    ensures forall k, l :: 0 <= k < l < |r| ==> r[k] < r[l]
  {
    IndicesOf(seq(|texts|, i requires 0 <= i < |texts| => Matches(term, texts[i])))
  }

  /**
   `display_search_functionality` for one run in which the box holds `term` and "Go to first
   result" reported `goFirst`. The box is shown only when there is text. Results are recomputed
   only when the term differs from the stored one; an empty term clears them. The button exists
   only in that run, and only when something matched.
   */
  function Search<I>(s: State<I>, term: string, goFirst: bool): (r: State<I>)
    ensures r.(searchTerm := s.searchTerm, searchResults := s.searchResults, current := s.current) == s
    ensures |s.texts| == 0 || term == s.searchTerm ==> r == s
    ensures |s.texts| > 0 && term != s.searchTerm && term == [] ==> r == s.(searchTerm := [], searchResults := [])
    ensures r.current != s.current ==> goFirst && r.searchResults != [] && r.current == r.searchResults[0]
  {
    if |s.texts| == 0 || term == s.searchTerm then s
    else if term == [] then s.(searchTerm := term, searchResults := [])
    else
      var results := MatchingPages(s.texts, term);
      var found := s.(searchTerm := term, searchResults := results);
      if results != [] && goFirst then found.(current := results[0]) else found
  }

  /**
   A fresh non-empty term stores exactly the pages that contain it, ascending and without
   repeats, and "Go to first result" lands on the lowest such page.
   */
  lemma SearchFindsExactly<I>(s: State<I>, term: string, goFirst: bool)
    requires |s.texts| > 0 && term != s.searchTerm && term != []
    ensures var r := Search(s, term, goFirst);
            && r.searchTerm == term
            && (forall i :: i in r.searchResults <==> 0 <= i < |s.texts| && Matches(term, s.texts[i]))
            && (forall k, l :: 0 <= k < l < |r.searchResults| ==> r.searchResults[k] < r.searchResults[l])
            && (goFirst && r.searchResults != [] ==>
                  Matches(term, s.texts[r.current]) &&
                  forall i :: 0 <= i < r.current ==> !Matches(term, s.texts[i]))
  {
    var r := Search(s, term, goFirst);
    assert r.searchResults == MatchingPages(s.texts, term);
  }

  /** Matching ignores ASCII case on both sides. */
  lemma MatchesIgnoresCase(term: string, text: string)
    ensures Matches(Strings.Lower(term), text) == Matches(term, text)
    ensures Matches(term, Strings.Lower(text)) == Matches(term, text)
  {
    Strings.LowerIdempotent(term);
    Strings.LowerIdempotent(text);
  }

  // ---------------------------------------------------------------------------------------
  // Content pane

  /** The extraction-quality badge shown above a page's text. */
  datatype Quality = Good | PartialText | Poor

  const GoodAbove: nat := 1000
  const PartialAbove: nat := 200

  /** The badge is chosen from the stripped length of the page text. */
  function QualityOf(text: string): (q: Quality)
    ensures q == Good <==> |Strings.Strip(text)| > 1000
    ensures q == PartialText <==> 200 < |Strings.Strip(text)| <= 1000
    ensures q == Poor <==> |Strings.Strip(text)| <= 200
  {
    var n := |Strings.Strip(text)|;
    if n > GoodAbove then Good else if n > PartialAbove then PartialText else Poor
  }

  function Rank(q: Quality): nat {
    match q
    case Poor => 0
    case PartialText => 1
    case Good => 2
  }

  /** More text after stripping never earns a worse badge; surrounding whitespace never counts. */
  lemma QualityMonotone(a: string, b: string)
    requires |Strings.Strip(a)| <= |Strings.Strip(b)|
    ensures Rank(QualityOf(a)) <= Rank(QualityOf(b))
  {
  }

  /** What the text view shows: the text with the term emphasised, or the text with its badge. */
  datatype Body<I> =
    | Highlighted(text: string, term: string)
    | Plain(text: string, quality: Quality)
    | NoTextWarning
    | Picture(image: I)
    | NoImageWarning

  /** The content pane: nothing, or the current page with its "Match found" banner flag. */
  datatype Pane<I> = Blank | PageView(page: nat, matchBanner: bool, body: Body<I>)

  /** The guard of `display_content`: there are pages and the current one is below the count. */
  predicate PageShown<I>(s: State<I>) {
    s.total > 0 && s.current < s.total
  }

  /**
   `display_content`: shown only while the current page is below the page count; the text or
   image of that page is shown only when the respective list is long enough, and the badge only
   when no search term is being highlighted.
   */
  function DisplayContent<I>(s: State<I>): (d: Pane<I>)
    ensures d.PageView? <==> PageShown(s)
    ensures d.PageView? ==> d.page == s.current
    ensures d.PageView? ==> (d.matchBanner <==> s.current in s.searchResults && s.searchTerm != [])
    ensures d.PageView? && (d.body.Highlighted? || d.body.Plain?) ==>
              s.viewMode == TextMode && s.current < |s.texts| && d.body.text == s.texts[s.current]
    ensures d.PageView? && d.body.Plain? ==> d.body.quality == QualityOf(s.texts[s.current])
    ensures d.PageView? && d.body.Picture? ==>
              s.viewMode == OriginalMode && s.current < |s.pages| && d.body.image == s.pages[s.current]
    ensures d.PageView? ==>
              (d.body.Highlighted? <==>
                 s.viewMode == TextMode && s.current < |s.texts| && s.searchTerm != [] && s.texts[s.current] != [])
    ensures d.PageView? && d.body.Highlighted? ==> d.body.term == s.searchTerm
    ensures d.PageView? ==>
              (d.body.Plain? <==>
                 s.viewMode == TextMode && s.current < |s.texts| && (s.searchTerm == [] || s.texts[s.current] == []))
    ensures d.PageView? ==> (d.body.NoTextWarning? <==> s.viewMode == TextMode && s.current >= |s.texts|)
    ensures d.PageView? ==> (d.body.Picture? <==> s.viewMode == OriginalMode && s.current < |s.pages|)
    ensures d.PageView? ==> (d.body.NoImageWarning? <==> s.viewMode == OriginalMode && s.current >= |s.pages|)
  {
    if PageShown(s) then
      var banner := s.current in s.searchResults && s.searchTerm != [];
      var body :=
        match s.viewMode
        case TextMode =>
          if s.current < |s.texts| then
            var text := s.texts[s.current];
            if s.searchTerm != [] && text != [] then Highlighted(text, s.searchTerm)
            else Plain(text, QualityOf(text))
          else NoTextWarning
        case OriginalMode =>
          if s.current < |s.pages| then Picture(s.pages[s.current]) else NoImageWarning;
      PageView(s.current, banner, body)
    else
      Blank
  }

  /** The radio button, which is part of the visible pane only. */
  function ChooseView<I>(s: State<I>, mode: ViewMode): (r: State<I>)
    ensures r == s.(viewMode := r.viewMode)
    ensures PageShown(s) ==> r.viewMode == mode
    ensures !PageShown(s) ==> r == s
  {
    if PageShown(s) then s.(viewMode := mode) else s
  }

  // ---------------------------------------------------------------------------------------
  // The whole session

  /** One script run's worth of change. Processing results arrive as the lists the processors
      returned; the widgets' values arrive as parameters. */
  datatype Event<I> =
    | UploadFile(name: string)
    | PdfLoaded(images: seq<I>, texts: seq<string>)
    | ImageLoaded(image: I, text: string)
    | Nav(action: NavAction)
    | SearchFor(term: string, goFirst: bool)
    | PickView(mode: ViewMode)

  predicate Allowed<I>(s: State<I>, e: Event<I>) {
    e.Nav? ==> SliderInRange(s, e.action)
  }

  /**
   `main` and `handle_file_upload`: uploads are always looked at, a result is stored only while
   the file is unprocessed, and navigation, search and the pane act only once it is processed.
   */
  function Step<I>(s: State<I>, e: Event<I>): (r: State<I>)
    requires Allowed(s, e)
    ensures !s.processed && !e.UploadFile? && !e.PdfLoaded? && !e.ImageLoaded? ==> r == s
    ensures s.processed && (e.PdfLoaded? || e.ImageLoaded?) ==> r == s
    ensures e.UploadFile? ==> r == Upload(s, e.name)
    ensures !s.processed && e.PdfLoaded? ==> r == StorePdf(s, e.images, e.texts)
    ensures !s.processed && e.ImageLoaded? ==> r == StoreImage(s, e.image, e.text)
    ensures s.processed && e.Nav? ==> r == Navigate(s, e.action)
    ensures s.processed && e.SearchFor? ==> r == Search(s, e.term, e.goFirst)
    ensures s.processed && e.PickView? ==> r == ChooseView(s, e.mode)
  {
    match e
    case UploadFile(name) => Upload(s, name)
    case PdfLoaded(images, texts) => if s.processed then s else StorePdf(s, images, texts)
    case ImageLoaded(image, text) => if s.processed then s else StoreImage(s, image, text)
    case Nav(a) => if s.processed then Navigate(s, a) else s
    case SearchFor(term, goFirst) => if s.processed then Search(s, term, goFirst) else s
    case PickView(mode) => if s.processed then ChooseView(s, mode) else s
  }

  /**
   What every reachable session satisfies when each stored PDF result has no more texts than
   images: the page count is the number of images, the current page is in range, every text
   has an image, results are ascending positions of texts, and an unprocessed session is empty.
   */
  predicate Valid<I>(s: State<I>) {
    && s.total == |s.pages|
    && PageInRange(s)
    && |s.texts| <= s.total
    && (forall k :: 0 <= k < |s.searchResults| ==> s.searchResults[k] < |s.texts|)
    && (forall k, l :: 0 <= k < l < |s.searchResults| ==> s.searchResults[k] < s.searchResults[l])
    && (!s.processed ==> s.pages == [] && s.texts == [] && s.searchResults == [])
  }

  /** A stored PDF result carries no more texts than images. */
  predicate Aligned<I>(e: Event<I>) {
    e.PdfLoaded? ==> |e.texts| <= |e.images|
  }

  lemma InitialValid<I>()
    ensures Valid(Initial<I>())
  {
  }

  /** Every step keeps the session valid, so the pane never points past the last page. */
  lemma StepPreservesValid<I>(s: State<I>, e: Event<I>)
    requires Valid(s) && Allowed(s, e) && Aligned(e)
    ensures Valid(Step(s, e))
  {
    match e
    case SearchFor(term, goFirst) =>
      if s.processed && |s.texts| > 0 && term != s.searchTerm && term != [] {
        SearchFindsExactly(s, term, goFirst);
      }
    case Nav(a) =>
      if s.processed {
        NavigateKeepsPageInRange(s, a);
      }
    case _ =>
  }

  /** In a valid processed session with at least one page, the pane always shows that page. */
  lemma ValidPaneShowsPage<I>(s: State<I>)
    requires Valid(s) && s.total > 0
    ensures DisplayContent(s).PageView?
    ensures DisplayContent(s).body != NoImageWarning
  {
  }
}
