# CoverLetterApp core, modelled in Dafny

CoverLetterApp is an iOS app. The user picks a CV as a PDF or an image, and
the app turns it into plain text. It pairs that text with a job description
to produce a cover letter. A small Python backend splits CV text into named
sections. This project models the two pieces of logic in that path and
proves properties of them.

- `cv_processor.dfy` covers the section extractor.
  - `extract_section` builds the pattern `(?i)(?:k1|k2|…)(.*?)(?=\n[A-Z])` and
    scans the text with `re.finditer` under `re.DOTALL`. It returns the first
    group 1 that is not empty after `strip()`, or the sentinel `"Not Found"`.
  - The regex is modelled as the scan the engine performs:
    - at each start position the alternatives are tried in list order;
    - an alternative leads to a match when the keyword occurs there, ignoring
      case, and a newline followed by a letter occurs at or after its end;
    - the lazy group stops at the first such boundary;
    - the scan resumes where the match ended.
  - `MatchesAreFinditer` states what that sequence of matches is, independently
    of how it is computed.
  - `extract_sections` applies the extractor to five fixed keyword pairs.
  - Module `CvProcessorProperties` proves:
    - when the sentinel comes back;
    - that the first non-blank match wins;
    - that blank matches and match-less positions are skipped;
    - that the case of keywords and of the text's letters changes nothing.
- `content_view.dfy` covers the app's import screen.
  - `handleFileImport` is a state machine over the extracted text and the
    preview. It uses the first selected file only, and classifies it by its
    lower-cased extension.
  - PDF text is assembled page by page. Each page that has text contributes
    that text plus a newline.
  - Recognized image text is the top candidate of each observation, joined by
    newlines.
  - An image that does not decode gets the image failure text before
    `handleFileImport` returns, because its completion handler is then called
    directly. For an image that decodes, recognition runs in the background.
    Importing it returns with the recognition pending, and `DeliverOcr`
    applies its completion handler later.
  - `generateCoverLetter` writes a fixed mock text.
  - What the PDF and image frameworks report is passed in as data.
    - A `PdfDocument` is `None` when the file cannot be opened, and otherwise
      holds one entry per page.
    - `Frameworks` says what PDF lies at each URL and whether the file there
      decodes as an image.
    - An `OcrOutcome` is `None` when recognition fails, and otherwise holds
      one entry per observation.
- `base.dfy` holds the shared vocabulary: `Option`, ASCII case folding, and
  Python's whitespace class.

Some consequences of the import code that are easy to miss:

- An empty selection leaves the screen unchanged
  (`CoverLetterApp/ContentView.swift:108-109`). The text and the preview are
  not cleared. A cancelled picker does not call `handleFileImport` at all.
- Picking an image that decodes sets the image preview but keeps the
  previous extracted text until recognition completes
  (`CoverLetterApp/ContentView.swift:114-119`).
- Generating a cover letter assigns a fixed mock text and changes nothing
  else (`CoverLetterApp/ContentView.swift:101-103`). No request is made.
- An unsupported file sets the preview to `nil`, the same as having no file
  (`CoverLetterApp/ContentView.swift:120-123`).

The CV fixture in `Backend/CVProcessor_test.py:8-25` indents every line. So no
newline in it is followed by a letter, and `NotFoundWithoutBoundary` shows
that every extraction from it returns `"Not Found"`. The positive assertions at
`Backend/CVProcessor_test.py:27-31` and `:39-46` therefore do not hold of the
code as written. Removing the indentation alone would not help either. In
"Education\nBachelor…" a boundary directly follows the keyword, so group 1 is
empty and the match is skipped (`BlankMatchSkipped`).

`LeadingSection` states one shape of text for which a section is found:

- the text opens with the first keyword;
- the content after it has no line starting with a letter, such as indented
  content lines, and is not all whitespace;
- then a line starting with a letter follows, such as the next flush-left
  heading.

The result is then exactly the stripped content.

## Model

| member | source | states |
|---|---|---|
| Base.LowerStringIsFold | CoverLetterApp/ContentView.swift:110 | comparing `lowercased()` with a lower-case word holds exactly when the string equals that word ignoring case, in both directions |
| CvProcessor.NextBoundary | Backend/CVProcessor.py:30 | the lazy group started at `from` ends at the least position at or after `from` holding a newline followed by a letter; none when no such position exists |
| CvProcessor.FirstFiring | Backend/CVProcessor.py:29-30 | the alternation tries keywords in list order: the result is an alternative that leads to a match and no earlier one does, or no alternative does |
| CvProcessor.HitAtSpec | Backend/CVProcessor.py:30 | the match anchored at a position is the first keyword that fires there, with group 1 running from the keyword's end to the first boundary; absent exactly when no keyword fires there |
| CvProcessor.MatchesAreFinditer | Backend/CVProcessor.py:31-33 | the matches come in order without overlapping, each is the regex's match at its start, and no match is anchored at any position they skip |
| CvProcessor.ValidHitUnique | Backend/CVProcessor.py:30 | at most one match of the pattern is anchored at any position |
| CvProcessor.FinditerUnique | Backend/CVProcessor.py:31-33 | those three facts determine the match sequence: two sequences that both satisfy them are equal |
| CvProcessor.FinditerIsMatches | Backend/CVProcessor.py:31-33 | any sequence with those three facts is the computed match sequence |
| CvProcessor.StripBounds | Backend/CVProcessor.py:35 | `strip()` removes a whitespace prefix and suffix and keeps a part that is empty or begins and ends with non-whitespace |
| CvProcessor.Strip | Backend/CVProcessor.py:35-36 | the stripped text is empty exactly when the text is all whitespace, and otherwise has non-whitespace at both ends |
| CvProcessor.StripCharacterized | Backend/CVProcessor.py:35 | any cut into blank prefix, kept part and blank suffix whose kept part has non-blank ends is the one `strip()` makes |
| CvProcessor.FirstContent | Backend/CVProcessor.py:33-37 | the loop picks the first match whose group 1 is not blank; it finds none exactly when every group 1 is blank |
| CvProcessor.SectionFrom | Backend/CVProcessor.py:31-37 | the section found is the stripped group 1 of the first non-blank match of a valid match sequence, or none when all are blank |
| CvProcessor.ExtractSection | Backend/CVProcessor.py:24-39 | the result is the sentinel, or a non-empty substring of the text with non-whitespace ends and no newline-letter pair inside; the sentinel comes back whenever every match is blank |
| CvProcessor.AllSectionValues | Backend/CVProcessor.py:33-39 | for every non-empty list of non-empty keywords the result is the sentinel or a trimmed non-empty substring of the text |
| CvProcessor.SectionKeywordsNonEmpty | Backend/CVProcessor.py:16-20 | all five fixed keyword lists are non-empty lists of non-empty keywords |
| CvProcessor.SectionNames | Backend/CVProcessor.py:15-21 | the section names are Education, Experience, Projects, Achievements and Skills |
| CvProcessor.ExtractSections | Backend/CVProcessor.py:11-22 | the result has exactly the five section names as keys and every value is a section value of the text |
| CvProcessor.SectionEntry | Backend/CVProcessor.py:15-21 | each name's entry is what `extract_section` finds with that name's two keywords |
| CvProcessorProperties.NotFoundWhenKeywordsAbsent | Backend/CVProcessor_test.py:33-37 | when no keyword occurs anywhere in the text, in any case, the result is `"Not Found"` |
| CvProcessorProperties.NotFoundWithoutBoundary | Backend/CVProcessor_test.py:8-25 | when no newline in the text is followed by a letter, as in a fully indented CV, the result is `"Not Found"` whatever the keywords |
| CvProcessorProperties.FirstNonBlankWins | Backend/CVProcessor.py:33-37 | the result is the stripped group 1 of the first match whose group 1 is not blank |
| CvProcessorProperties.FirstHitWins | Backend/CVProcessor.py:33-37 | a match at the start of the text with a non-blank group 1 decides the result |
| CvProcessorProperties.BlankMatchSkipped | Backend/CVProcessor.py:35-37 | a match whose group 1 is only whitespace is skipped and the search carries on from its end |
| CvProcessorProperties.NoMatchAdvances | Backend/CVProcessor.py:31 | a position where no keyword leads to a match is passed over |
| CvProcessorProperties.LeadingHit | Backend/CVProcessor.py:30 | a text opening with the first keyword and content without an inner heading matches with group 1 equal to that content |
| CvProcessorProperties.LeadingSection | Backend/CVProcessor_test.py:27-31 | a text opening with the first keyword, then content without an inner heading, then a line starting with a letter, yields the content stripped |
| CvProcessorProperties.KeywordCaseIgnored | Backend/CVProcessor.py:29-30 | keyword lists that differ only in letter case give the same result |
| CvProcessorProperties.TextCaseIgnored | Backend/CVProcessor.py:30 | texts that differ only in letter case yield the same section, and results equal up to case |
| CvProcessorProperties.OccurrenceCaseIgnored | Backend/CVProcessor.py:30 | rewriting one word of the text in another case leaves the result unchanged unless the word lies inside the returned section |
| ContentView.Classify | CoverLetterApp/ContentView.swift:110-123 | a file is a PDF exactly when its extension is "pdf" ignoring case, an image exactly when it is "png", "jpg" or "jpeg" ignoring case, and unsupported otherwise |
| ContentView.ClassifyIgnoresCase | CoverLetterApp/ContentView.swift:110-114 | extensions that differ only in case are classified alike |
| ContentView.ClassifyAcceptsAnyCase | CoverLetterApp/ContentView.swift:110-114 | "PDF", "JPeG" and "png" are recognized |
| ContentView.ClassifyRejectsOthers | CoverLetterApp/ContentView.swift:120-123 | "gif", the empty extension and "pdf " are unsupported |
| ContentView.PdfText | CoverLetterApp/ContentView.swift:133 | the extraction fails exactly when the document cannot be opened |
| ContentView.ExtractTextFromPdf | CoverLetterApp/ContentView.swift:132-141 | the page loop yields the text of every page that has one, in page order, each followed by a newline, and fails only when the document cannot be opened |
| ContentView.PresentMembers | CoverLetterApp/ContentView.swift:153 | `compactMap` keeps exactly the present strings |
| ContentView.PresentKeepsAll | CoverLetterApp/ContentView.swift:136 | nothing is dropped exactly when every page or observation has text |
| ContentView.TerminatedRoundTrip | CoverLetterApp/ContentView.swift:137 | splitting the PDF text at newlines gives back the page texts, when they have no newlines, followed by one empty piece |
| ContentView.OcrText | CoverLetterApp/ContentView.swift:151-157 | recognition yields text exactly when the request succeeds |
| ContentView.JoinRoundTrip | CoverLetterApp/ContentView.swift:153 | splitting the recognized text at newlines gives back the recognized lines, when they have no newlines and there is at least one |
| ContentView.TerminatedIsJoinPlusNewline | CoverLetterApp/ContentView.swift:135-139 | the PDF text is the newline-join of the page texts plus one trailing newline, or empty when no page has text |
| ContentView.NoTextPagesGiveEmpty | CoverLetterApp/ContentView.swift:134-140 | a document none of whose pages has text yields the empty string, not a failure |
| ContentView.TwoPageExample | CoverLetterApp/ContentView.swift:135-139 | pages "Alice", a page without text and "Engineer" yield "Alice\nEngineer\n" |
| ContentView.NoObservationsGiveEmpty | CoverLetterApp/ContentView.swift:152-154 | an image without observations yields the empty string, not a failure |
| ContentView.HandleFileImport | CoverLetterApp/ContentView.swift:106-129 | each branch's outcome: a picker error sets the error text and clears the preview; an empty selection changes nothing; a PDF sets its text or the PDF failure text and a PDF preview; an image sets the image preview, and either sets the image failure text at once when it does not decode or keeps the text and leaves recognition pending; anything else sets the unsupported text and clears the preview; job description and cover letter never change |
| ContentView.DeliverOcr | CoverLetterApp/ContentView.swift:116-118 | the completion sets the recognized text, or the image failure text, and changes nothing else |
| ContentView.GenerateCoverLetter | CoverLetterApp/ContentView.swift:101-103 | the cover letter becomes the mock text and nothing else changes |
| ContentView.GenerateIdempotent | CoverLetterApp/ContentView.swift:101-103 | generating twice is the same as generating once |
| ContentView.OnlyFirstUrlUsed | CoverLetterApp/ContentView.swift:109 | selections with the same first file give the same outcome |
| ContentView.GenerateCommutesWithImport | CoverLetterApp/ContentView.swift:101-129 | generating before or after an import gives the same screen |
| ContentView.ImageImportThenOcr | CoverLetterApp/ContentView.swift:114-119 | importing an image that decodes and then delivering its recognition result previews the image and sets the recognized text, or the failure text |
| ContentView.ImportForgetsPreviousFile | CoverLetterApp/ContentView.swift:106-129 | except for an empty selection or an image still being recognized, the outcome of an import does not depend on the previously imported file |
| ContentView.FirstImport | CoverLetterApp/ContentView.swift:14-18 | from the starting state, with empty texts, the placeholder cover letter and no preview, an empty selection changes nothing, and a PDF import leaves the job description empty and the placeholder in place |

## Left out

- CvProcessor.ExtractSection requires a non-empty list of non-empty keywords. An empty list or an empty keyword puts an empty alternative into the pattern. That alternative matches at every position, and the engine's rule against repeated empty matches produces captures the model does not describe. For example, the empty list finds "abc" in "abc\nDef". The five lists used by `extract_sections` all meet the requirement. The same requirement is on `SectionFrom`, `Matches` and the property lemmas.
- CvProcessor.ExtractSection treats keywords as literal text. The source joins them into the pattern unescaped, so a keyword containing regex metacharacters would be read as a regex. None of the fixed keywords contains one.
- Case folding is ASCII only. Python's `(?i)` folds some non-ASCII letters onto ASCII ones, for example the Kelvin sign onto `k`, and lets `[A-Z]` match them. Swift's `lowercased()` is full Unicode. No non-ASCII character lowercases to a letter of "pdf", "png", "jpg" or "jpeg", so the classification is exact.
- Python's dict keeps its insertion order. The model's map has no order. The only consumer that could iterate the dict, the prompt generation that `Backend/app.py:26` hands it to, is not part of this model.
- How the platform derives `pathExtension` from a URL is not modelled. It is a field of `Url`.
- The PDF framework and the vision framework are not modelled. What they report is an input: which pages have text, and which observations have a top candidate. The recognition level and the candidate ranking are the recognizer's.
- For an image that decodes, the completion handler runs on a background queue. The model delivers the pending recognition as a separate step. It does not model two overlapping imports completing out of order, or the handler being called twice.
- SwiftUI rendering, the preview views, the picker's presentation flag and the editing of the job description are not modelled. They only present values. The image preview's own decode fallback (`CoverLetterApp/ContentView.swift:200-206`) and the PDF preview's own opening of the document (`CoverLetterApp/ContentView.swift:185-190`) are not modelled.
- The HTTP endpoint in `Backend/app.py` is not part of this model.
- Strings are sequences of Unicode scalar values. Swift's grapheme-cluster view of `String` does not affect any operation modelled here.
