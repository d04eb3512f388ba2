/**
 The file-import logic of the app's main screen.

 Picking a file drives a small state machine over the text extracted from the
 résumé and the preview shown for it. The file is classified by its
 lower-cased extension. A PDF's text is assembled from its pages on the spot.
 An image that fails to decode gets its failure text on the spot too; the
 text of one that decodes arrives later from text recognition, through a
 completion handler. The PDF and image frameworks are not modelled: what
 they report is handed in as data.
 */
module ContentView {
  import opened Base

  // ---------------------------------------------------------------------
  // State
  // ---------------------------------------------------------------------

  /** A file URL as the picker hands it over. `pathExtension` is what the
      platform reports for the URL; how it is computed is not modelled. */
  datatype Url = Url(path: string, pathExtension: string)

  /** What the preview area shows: nothing, a PDF view of the file, or an
      image view of the file. */
  datatype Preview = NoPreview | PdfPreview(url: Url) | ImagePreview(url: Url)

  /** The screen state that the import and generate actions read and write. */
  datatype Screen = Screen(
    extractedText: string,
    jobDescription: string,
    coverLetter: string,
    filePreview: Preview)

  const CoverLetterPlaceholder: string := "Your generated cover letter will appear here."
  const MockCoverLetter: string := "This is a mock cover letter based on your CV and job description."
  const PdfFailure: string := "Unable to extract text from PDF."
  const ImageFailure: string := "Unable to extract text from image."
  const UnsupportedType: string := "Unsupported file type."
  const SelectionFailedPrefix: string := "File selection failed: "

  /** The state the screen starts in. */
  const InitialScreen: Screen := Screen("", "", CoverLetterPlaceholder, NoPreview)

  /** What the file picker reports: the selected URLs, or an error with its
      localized description. */
  datatype PickerResult = Picked(urls: seq<Url>) | PickerError(description: string)

  /** A PDF as the PDF framework presents it: `None` when the document cannot
      be opened; otherwise one entry per page index, `None` when the page or
      its text is missing. */
  type PdfDocument = Option<seq<Option<string>>>

  /** What the recognition request delivers: `None` when the request fails
      or its results are not text observations; otherwise the top candidate
      of each observation in the recognizer's order, `None` for an
      observation without one. */
  type OcrOutcome = Option<seq<Option<string>>>

  /** What the platform frameworks find at each URL: the PDF document there,
      and whether the file decodes as an image. */
  datatype Frameworks = Frameworks(pdfAt: Url -> PdfDocument, decodesAsImage: Url -> bool)

  // ---------------------------------------------------------------------
  // Classification
  // ---------------------------------------------------------------------

  datatype FileKind = PdfFile | ImageFile | UnsupportedFile

  /** The image extensions, in any case. */
  predicate IsImageExtension(ext: string) {
    FoldEq(ext, "png") || FoldEq(ext, "jpg") || FoldEq(ext, "jpeg")
  }

  /** The branch `handleFileImport` takes for a file with extension `ext`. */
  function Classify(ext: string): (k: FileKind)
    ensures k == PdfFile <==> FoldEq(ext, "pdf")
    ensures k == ImageFile <==> IsImageExtension(ext)
  {
    LowerStringIsFold(ext, "pdf");
    LowerStringIsFold(ext, "png");
    LowerStringIsFold(ext, "jpg");
    LowerStringIsFold(ext, "jpeg");
    var e := LowerString(ext);
    if e == "pdf" then PdfFile
    else if e in ["png", "jpg", "jpeg"] then ImageFile
    else UnsupportedFile
  }

  // ---------------------------------------------------------------------
  // Text assembly
  // ---------------------------------------------------------------------

  /** The strings that are present, in order (`compactMap`). */
  function Present(xs: seq<Option<string>>): (r: seq<string>)
    ensures |r| <= |xs|
  {
    if xs == [] then []
    else (if xs[0].Some? then [xs[0].value] else []) + Present(xs[1..])
  }

  /** Each string followed by a newline, concatenated in order. */
  function Terminated(ts: seq<string>): (s: string) {
    if ts == [] then "" else ts[0] + "\n" + Terminated(ts[1..])
  }

  /** `joined(separator: "\n")`: the strings with a newline between
      consecutive ones and none after the last. */
  function Join(ts: seq<string>): (s: string) {
    if ts == [] then ""
    else if |ts| == 1 then ts[0]
    else ts[0] + "\n" + Join(ts[1..])
  }

  /** `extractTextFromPDF`: `None` when the document cannot be opened,
      otherwise the text of every page that has one, each followed by a
      newline. */
  function PdfText(doc: PdfDocument): (r: Option<string>)
    ensures r.None? <==> doc.None?
  {
    match doc
    case None => None
    case Some(pages) => Some(Terminated(Present(pages)))
  }

  /** The completion of `extractTextFromImage`: `None` on failure, otherwise
      the recognized lines joined by newlines. */
  function OcrText(outcome: OcrOutcome): (r: Option<string>)
    ensures r.None? <==> outcome.None?
  {
    match outcome
    case None => None
    case Some(observations) => Some(Join(Present(observations)))
  }

  lemma {:induction false} PresentSnoc(xs: seq<Option<string>>, x: Option<string>)
    ensures Present(xs + [x]) == Present(xs) + (if x.Some? then [x.value] else [])
  {
    var ys := xs + [x];
    if xs == [] {
      assert ys == [x] && ys[1..] == [];
    } else {
      assert ys[0] == xs[0];
      assert ys[1..] == xs[1..] + [x];
      PresentSnoc(xs[1..], x);
      var head := if xs[0].Some? then [xs[0].value] else [];
      assert Present(ys) == head + Present(ys[1..]);
      assert Present(xs) == head + Present(xs[1..]);
    }
  }

  lemma {:induction false} TerminatedSnoc(ts: seq<string>, t: string)
    ensures Terminated(ts + [t]) == Terminated(ts) + t + "\n"
  {
    if ts == [] {
      assert [] + [t] == [t];
    } else {
      assert (ts + [t])[1..] == ts[1..] + [t];
      TerminatedSnoc(ts[1..], t);
    }
  }

  /** The page loop of `extractTextFromPDF`, page index by page index. */
  method ExtractTextFromPdf(doc: PdfDocument) returns (r: Option<string>)
    ensures r == PdfText(doc)
  {
    if doc.None? {
      return None;
    }
    var pages := doc.value;
    var fullText := "";
    var i := 0;
    while i < |pages|
      invariant 0 <= i <= |pages|
      invariant fullText == Terminated(Present(pages[..i]))
    {
      PresentSnoc(pages[..i], pages[i]);
      assert pages[..i + 1] == pages[..i] + [pages[i]];
      match pages[i] {
        case Some(text) =>
          assert Present(pages[..i + 1]) == Present(pages[..i]) + [text];
          TerminatedSnoc(Present(pages[..i]), text);
          fullText := fullText + text + "\n";
        case None =>
          assert Present(pages[..i + 1]) == Present(pages[..i]) + [];
          assert Present(pages[..i]) + [] == Present(pages[..i]);
      }
      i := i + 1;
    }
    assert pages[..|pages|] == pages;
    return Some(fullText);
  }

  // ---------------------------------------------------------------------
  // Reading the assembled text back
  // ---------------------------------------------------------------------

  /** The pieces of `s` between newlines (Python's `s.split("\n")`). */
  function SplitLines(s: string): (r: seq<string>)
    ensures |r| >= 1
  {
    if s == [] then [""]
    else
      var rest := SplitLines(s[1..]);
      if s[0] == '\n' then [""] + rest
      else [[s[0]] + rest[0]] + rest[1..]
  }

  predicate NoNewline(t: string) {
    forall i :: 0 <= i < |t| ==> t[i] != '\n'
  }

  predicate AllNoNewline(ts: seq<string>) {
    forall i :: 0 <= i < |ts| ==> NoNewline(ts[i])
  }

  lemma {:induction false} SplitNoNewline(t: string)
    requires NoNewline(t)
    ensures SplitLines(t) == [t]
  {
    if t != [] {
      SplitNoNewline(t[1..]);
      assert [t[0]] + t[1..] == t;
    }
  }

  lemma {:induction false} SplitAfterLine(t: string, rest: string)
    requires NoNewline(t)
    ensures SplitLines(t + "\n" + rest) == [t] + SplitLines(rest)
  {
    if t == [] {
      assert t + "\n" + rest == "\n" + rest;
      assert ("\n" + rest)[1..] == rest;
    } else {
      assert (t + "\n" + rest)[1..] == t[1..] + "\n" + rest;
      SplitAfterLine(t[1..], rest);
      assert [t[0]] + t[1..] == t;
    }
  }

  /** Page texts without newlines can be read back from the PDF text: every
      page text in order, then the empty piece after the final newline. */
  lemma {:induction false} TerminatedRoundTrip(ts: seq<string>)
    requires AllNoNewline(ts)
    ensures SplitLines(Terminated(ts)) == ts + [""]
  {
    if ts != [] {
      TerminatedRoundTrip(ts[1..]);
      SplitAfterLine(ts[0], Terminated(ts[1..]));
      assert [ts[0]] + (ts[1..] + [""]) == ts + [""];
    }
  }

  /** Recognized lines without newlines can be read back from the joined
      text, provided there was at least one. */
  lemma {:induction false} JoinRoundTrip(ts: seq<string>)
    requires |ts| >= 1 && AllNoNewline(ts)
    ensures SplitLines(Join(ts)) == ts
  {
    if |ts| == 1 {
      SplitNoNewline(ts[0]);
    } else {
      JoinRoundTrip(ts[1..]);
      SplitAfterLine(ts[0], Join(ts[1..]));
      assert [ts[0]] + ts[1..] == ts;
    }
  }

  /** The PDF text is the recognizer-style join plus one trailing newline,
      except that no pages with text give the empty string. */
  lemma {:induction false} TerminatedIsJoinPlusNewline(ts: seq<string>)
    ensures ts != [] ==> Terminated(ts) == Join(ts) + "\n"
    ensures ts == [] ==> Terminated(ts) == ""
  {
    if |ts| > 1 {
      TerminatedIsJoinPlusNewline(ts[1..]);
    }
  }

  /** Pages without text contribute nothing: a document none of whose pages
      has text yields the empty string, not the failure message. */
  lemma {:induction false} NoTextPagesGiveEmpty(pages: seq<Option<string>>)
    requires forall i :: 0 <= i < |pages| ==> pages[i].None?
    ensures PdfText(Some(pages)) == Some("")
  {
    if pages != [] {
      NoTextPagesGiveEmpty(pages[1..]);
    }
  }

  /** A resume with two text pages "Alice" and "Engineer". */
  lemma TwoPageExample()
    ensures PdfText(Some([Some("Alice"), None, Some("Engineer")])) == Some("Alice\nEngineer\n")
  {
    var pages := [Some("Alice"), None, Some("Engineer")];
    assert Present(pages) == ["Alice", "Engineer"] by {
      assert pages[1..][1..] == [Some("Engineer")];
      assert pages[1..][1..][1..] == [];
      assert Present(pages[1..][1..]) == ["Engineer"];
      assert Present(pages[1..]) == ["Engineer"];
    }
    var ts := ["Alice", "Engineer"];
    assert ts[1..] == ["Engineer"];
    assert ts[1..][1..] == [];
    assert Terminated(ts[1..]) == "Engineer\n";
    assert Terminated(ts) == "Alice\n" + "Engineer\n";
    assert "Alice\n" + "Engineer\n" == "Alice\nEngineer\n";
    assert PdfText(Some(pages)) == Some(Terminated(ts));
  }

  /** An image with zero observations gives the empty string, not the
      failure message. */
  lemma NoObservationsGiveEmpty()
    ensures OcrText(Some([])) == Some("")
  {
  }

  // ---------------------------------------------------------------------
  // Transitions
  // ---------------------------------------------------------------------

  /** The state after `handleFileImport` returns, and the image whose
      recognition is still running, if any. */
  datatype ImportStep = ImportStep(screen: Screen, pendingOcr: Option<Url>)

  /** `handleFileImport(result:)`. An image that does not decode gets its
      failure text at once, because the completion is then called before
      `extractTextFromImage` returns. For an image that decodes, recognition
      runs in the background: the step records it as pending and
      `DeliverOcr` applies its completion later. */
  function HandleFileImport(v: Screen, result: PickerResult, fw: Frameworks): (step: ImportStep)
    ensures step.screen.jobDescription == v.jobDescription
    ensures step.screen.coverLetter == v.coverLetter
    ensures result.PickerError? ==>
      && step.screen.extractedText == SelectionFailedPrefix + result.description
      && step.screen.filePreview == NoPreview
      && step.pendingOcr == None
    ensures result.Picked? && result.urls == [] ==> step == ImportStep(v, None)
    ensures result.Picked? && result.urls != [] && FoldEq(result.urls[0].pathExtension, "pdf") ==>
      var u := result.urls[0];
      && step.screen.filePreview == PdfPreview(u)
      && step.pendingOcr == None
      && (fw.pdfAt(u).None? ==> step.screen.extractedText == PdfFailure)
      && (fw.pdfAt(u).Some? ==> step.screen.extractedText == Terminated(Present(fw.pdfAt(u).value)))
    ensures result.Picked? && result.urls != [] && IsImageExtension(result.urls[0].pathExtension) ==>
      var u := result.urls[0];
      && step.screen.filePreview == ImagePreview(u)
      && (fw.decodesAsImage(u) ==> step.screen.extractedText == v.extractedText && step.pendingOcr == Some(u))
      && (!fw.decodesAsImage(u) ==> step.screen.extractedText == ImageFailure && step.pendingOcr == None)
    ensures result.Picked? && result.urls != [] && !FoldEq(result.urls[0].pathExtension, "pdf")
            && !IsImageExtension(result.urls[0].pathExtension) ==>
      && step.screen.extractedText == UnsupportedType
      && step.screen.filePreview == NoPreview
      && step.pendingOcr == None
  {
    match result
    case PickerError(description) =>
      ImportStep(v.(extractedText := SelectionFailedPrefix + description, filePreview := NoPreview), None)
    case Picked(urls) =>
      if urls == [] then ImportStep(v, None)
      else
        var u := urls[0];
        match Classify(u.pathExtension)
        case PdfFile =>
          ImportStep(v.(extractedText := PdfText(fw.pdfAt(u)).GetOr(PdfFailure), filePreview := PdfPreview(u)), None)
        case ImageFile =>
          if fw.decodesAsImage(u) then ImportStep(v.(filePreview := ImagePreview(u)), Some(u))
          else ImportStep(v.(extractedText := ImageFailure, filePreview := ImagePreview(u)), None)
        case UnsupportedFile =>
          ImportStep(v.(extractedText := UnsupportedType, filePreview := NoPreview), None)
  }

  /** The completion handler passed to `extractTextFromImage`. */
  function DeliverOcr(v: Screen, outcome: OcrOutcome): (w: Screen)
    ensures w.jobDescription == v.jobDescription && w.coverLetter == v.coverLetter
    ensures w.filePreview == v.filePreview
    ensures outcome.None? ==> w.extractedText == ImageFailure
    ensures outcome.Some? ==> w.extractedText == Join(Present(outcome.value))
  {
    v.(extractedText := OcrText(outcome).GetOr(ImageFailure))
  }

  /** `generateCoverLetter`: the cover letter becomes the fixed mock text. */
  function GenerateCoverLetter(v: Screen): (w: Screen)
    ensures w.coverLetter == MockCoverLetter
    ensures w.extractedText == v.extractedText && w.jobDescription == v.jobDescription
    ensures w.filePreview == v.filePreview
  {
    v.(coverLetter := MockCoverLetter)
  }

  // ---------------------------------------------------------------------
  // Properties of the transitions
  // ---------------------------------------------------------------------

  /** Only the case of the extension's letters is ignored. */
  lemma ClassifyIgnoresCase(e: string, e': string)
    requires FoldEq(e, e')
    ensures Classify(e) == Classify(e')
  {
  }

  /** Extensions are recognized in any case. */
  lemma ClassifyAcceptsAnyCase()
    ensures Classify("PDF") == PdfFile
    ensures Classify("JPeG") == ImageFile
    ensures Classify("png") == ImageFile
  {
  }

  /** Anything else, including an extension with trailing blanks, is
      unsupported. */
  lemma ClassifyRejectsOthers()
    ensures Classify("gif") == UnsupportedFile
    ensures Classify("") == UnsupportedFile
    ensures Classify("pdf ") == UnsupportedFile
  {
    assert Lower("gif"[0]) != Lower("pdf"[0]) && Lower("gif"[0]) != Lower("png"[0]);
    assert Lower("gif"[0]) != Lower("jpg"[0]);
    assert Lower("pdf "[0]) != Lower("jpeg"[0]);
  }

  /** A present string keeps its place; an absent one is dropped. */
  lemma {:induction false} PresentMembers(xs: seq<Option<string>>, t: string)
    ensures t in Present(xs) <==> Some(t) in xs
  {
    if xs != [] {
      PresentMembers(xs[1..], t);
      assert xs == [xs[0]] + xs[1..];
    }
  }

  /** Nothing is dropped exactly when every entry is present. */
  lemma {:induction false} PresentKeepsAll(xs: seq<Option<string>>)
    ensures |Present(xs)| == |xs| <==> forall i :: 0 <= i < |xs| ==> xs[i].Some?
  {
    if xs != [] {
      PresentKeepsAll(xs[1..]);
      if xs[0].Some? {
        assert forall i :: 1 <= i < |xs| ==> xs[i] == xs[1..][i - 1];
      }
    }
  }

  /** Only the first selected URL matters; the rest of the selection is
      ignored. */
  lemma OnlyFirstUrlUsed(v: Screen, urls: seq<Url>, urls': seq<Url>, fw: Frameworks)
    requires urls != [] && urls' != [] && urls[0] == urls'[0]
    ensures HandleFileImport(v, Picked(urls), fw) == HandleFileImport(v, Picked(urls'), fw)
  {
  }

  /** Importing never reads the cover letter or the job description, and
      generating never reads or writes anything the import touches, so the
      two actions commute. */
  lemma GenerateCommutesWithImport(v: Screen, result: PickerResult, fw: Frameworks)
    ensures
      var step := HandleFileImport(GenerateCoverLetter(v), result, fw);
      && step.screen == GenerateCoverLetter(HandleFileImport(v, result, fw).screen)
      && step.pendingOcr == HandleFileImport(v, result, fw).pendingOcr
  {
  }

  /** Generating twice is the same as generating once. */
  lemma GenerateIdempotent(v: Screen)
    ensures GenerateCoverLetter(GenerateCoverLetter(v)) == GenerateCoverLetter(v)
  {
  }

  /** Importing an image and then receiving its recognition result leaves
      the same state as a PDF-style synchronous import would: the image is
      previewed and the text is the recognized lines, or the failure message. */
  lemma ImageImportThenOcr(v: Screen, urls: seq<Url>, fw: Frameworks, outcome: OcrOutcome)
    requires urls != [] && Classify(urls[0].pathExtension) == ImageFile && fw.decodesAsImage(urls[0])
    ensures
      var step := HandleFileImport(v, Picked(urls), fw);
      && step.pendingOcr == Some(urls[0])
      && DeliverOcr(step.screen, outcome)
         == Screen(OcrText(outcome).GetOr(ImageFailure), v.jobDescription, v.coverLetter, ImagePreview(urls[0]))
  {
  }

  /** A later import is not affected by the file previously imported: apart
      from an empty selection and an image still being recognized,
      the resulting text and preview depend only on the new selection. */
  lemma ImportForgetsPreviousFile(v: Screen, v': Screen, result: PickerResult, fw: Frameworks)
    requires v.jobDescription == v'.jobDescription && v.coverLetter == v'.coverLetter
    requires !(result.Picked? && result.urls == [])
    requires !(result.Picked? && Classify(result.urls[0].pathExtension) == ImageFile
               && fw.decodesAsImage(result.urls[0]))
    ensures HandleFileImport(v, result, fw) == HandleFileImport(v', result, fw)
  {
  }

  /** From the state the screen starts in: an empty selection changes nothing, and
      importing a PDF shows its text (or the failure text) and its preview
      while the job description stays empty and the cover letter keeps its
      placeholder. */
  lemma FirstImport(urls: seq<Url>, fw: Frameworks)
    ensures HandleFileImport(InitialScreen, Picked([]), fw) == ImportStep(InitialScreen, None)
    ensures urls != [] && FoldEq(urls[0].pathExtension, "pdf") ==>
      HandleFileImport(InitialScreen, Picked(urls), fw).screen
        == Screen(PdfText(fw.pdfAt(urls[0])).GetOr(PdfFailure), "", CoverLetterPlaceholder, PdfPreview(urls[0]))
  {
  }
}
