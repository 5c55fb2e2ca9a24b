# Refy reference library — a verified model of its core

Refy is a browser-based reference manager: it stores bibliographic references, attaches
PDFs to them, exports them as BibTeX or APA citations, groups them into collections, keeps a
technical review sheet per paper, refreshes their metadata from CrossRef by DOI, and asks
language-model services (Gemini, Cerebras) to analyse a paper or evaluate a research idea.
A small Node script checks that the translation files hold the same keys.

This project models that core in Dafny and proves what it promises:

- `doi_lookup.dfy` (`DoiLookup`): the abstract clean-up, DOI validation, URL formatting,
  DOI extraction from free text with its four patterns, the CrossRef-record-to-metadata
  mapping and the citation key. The regular expressions are written out as scanning
  functions, and proved against declarative definitions.
- `doi_examples.dfy` (`DoiExamples`): worked inputs for these functions, each proved.
- `reference_details.dfy` (`ReferenceDetails`): the reference panel.
  - BibTeX export is an imperative accumulation, proved equal to a declarative entry.
  - Also covered: the APA citation, the collection toggle, the update object of a PDF
    upload, and the update object of "refresh from DOI".
- `references.dfy` (`References`): the reference record, the update object (`Patch`), and
  how the store merges one into the other.
- `gemini_service.dfy` (`GeminiService`): the model-by-model loop of the paper analysis,
  with its error handling and JSON extraction.
- `novelty_evaluator.dfy` (`NoveltyEvaluator`): the evaluator panel.
  - It is a class whose methods update its state.
  - Its providers are tried in the order Cerebras (two models), then Gemini.
  - The decision is stated as a function.
- `pdf_text_extractor.dfy` (`PdfTextExtractor`): the page loop that extracts a PDF's text.
- `technical_sheet.dfy` (`TechnicalSheet`): the review the sheet opens with, field
  updates, the rating stars and label, and saving.
- `reference_list.dfy` (`ReferenceList`): what each card shows, and the bulk-selection
  toolbar.
- `sidebar.dfy` (`Sidebar`): the collection forms, as a class with the component's state;
  the PDF drop zone; and which item is drawn active.
- `compare_locales.dfy` (`CompareLocales`): flattening a locale file into dotted key paths,
  and comparing the French and Arabic paths with the English ones.
- `text.dfy` (`Text`) and `wrappers.dfy` (`Wrappers`): the JavaScript string operations
  used throughout (`trim`, `replace`, `join`, …), and `Option`/`Result`.

JavaScript's falsy values are modelled explicitly. An absent string is `""`, an absent list
is `[]`, and `x || y` on text is "x unless it is empty".

Services, storage and the network are modelled as parameters, with the exact shape the
code looks at:

- the registry response, for DOI lookup;
- `respond(model, prompt)`, for Gemini;
- `cerebras(model, prompt)` and `gemini`, for the evaluator;
- the pages of a document, for the PDF extractor.

## Model

| member | source | states |
|---|---|---|
| DoiLookup.CleanAbstract | src/utils/doiLookup.js:11-32 | an absent (empty) abstract gives the empty text; the result never starts or ends with whitespace |
| DoiLookup.CleanAbstractSingleSpaced | src/utils/doiLookup.js:29 | the cleaned abstract never holds two whitespace characters in a row |
| DoiLookup.StripTags | src/utils/doiLookup.js:15-19 | one tag-removal pass never lengthens the text |
| DoiLookup.StripTagsTagFree | src/utils/doiLookup.js:19 | after the generic `<[^>]+>` pass no tag-like `<…>` substring is left |
| DoiLookup.StripAllTagsTagFree | src/utils/doiLookup.js:15-19 | the three tag passes together leave a tag-free text (entities are decoded afterwards, so `&lt;b&gt;` survives as `<b>`) |
| DoiLookup.StripTagsOfTagFree | src/utils/doiLookup.js:19 | a tag-free text is left unchanged by the tag pass |
| DoiLookup.JatsParagraphStripped | src/utils/doiLookup.js:15-16 | a `<jats:p>…</jats:p>` paragraph around `<`-free text is removed and its text kept exactly |
| DoiLookup.CollapseSpace | src/utils/doiLookup.js:29 | every whitespace left is a plain space, no two are adjacent, non-empty input stays non-empty and a non-space first character is kept |
| DoiLookup.CollapseSpaceFixed | src/utils/doiLookup.js:29 | text already single-spaced with plain spaces is unchanged |
| DoiLookup.CollapseSpaceIdempotent | src/utils/doiLookup.js:29 | collapsing whitespace twice is collapsing it once |
| DoiLookup.TrimKeepsSingleSpaced | src/utils/doiLookup.js:29 | trimming keeps a single-spaced text single-spaced |
| DoiLookup.DecodeEntitiesWithoutAmpersand | src/utils/doiLookup.js:22-26 | text with no `&` is unchanged by entity decoding |
| DoiLookup.AmpersandEntityDecoded | src/utils/doiLookup.js:22-26 | one `&amp;` between entity-free text becomes a single `&`, unless a later pass can read the decoded `&` as `&quot;`/`&apos;` |
| DoiLookup.CleanAbstractOfPlainText | src/utils/doiLookup.js:11-32 | text with neither `<` nor `&` only has its whitespace collapsed and trimmed |
| DoiLookup.StripDoiPrefix | src/utils/doiLookup.js:45 | a leading `https://doi.org/` is removed, else a leading `http://doi.org/`; text starting with neither is returned unchanged |
| DoiLookup.DigitRun | src/utils/doiLookup.js:156 | the scan for `\d{4,}` stops exactly at the first non-digit |
| DoiLookup.NonSpaceRun | src/utils/doiLookup.js:156 | the scan for `[^\s]+` stops exactly at the first whitespace |
| DoiLookup.DoiPrefixEnd | src/utils/doiLookup.js:183 | a prefix `10\.\d{4,}\/` found at an index ends at least eight characters after it, inside the text |
| DoiLookup.DoiPrefixEndShape | src/utils/doiLookup.js:183 | the prefix is found exactly when the text at that index has the prefix shape, and it ends just after that shape's `/` |
| DoiLookup.MatchesDoiPatternCorrect | src/utils/doiLookup.js:156-157 | the scanning matcher accepts exactly the strings of the form `10.` + four or more digits + `/` + one or more non-whitespace characters |
| DoiLookup.IsValidDoiSpec | src/utils/doiLookup.js:149-158 | a DOI is valid exactly when it is non-empty and, after the URL prefix is stripped and the rest trimmed, has the DOI syntax |
| DoiLookup.FormatDoiUrl | src/utils/doiLookup.js:165-170 | empty input gives empty output; any other input gives a `https://doi.org/` URL |
| DoiLookup.FormatDoiUrlCleansBack | src/utils/doiLookup.js:165-170 | the URL cleans back to the DOI the input cleaned to (round trip with the cleaning step) |
| DoiLookup.FormatDoiUrlIdempotent | src/utils/doiLookup.js:165-170 | formatting a formatted URL changes nothing |
| DoiLookup.FormatDoiUrlPreservesValidity | src/utils/doiLookup.js:149-170 | the formatted URL is a valid DOI exactly when the input was |
| DoiLookup.CaptureEnd | src/utils/doiLookup.js:183 | a capture found ends more than eight characters after its start, inside the text |
| DoiLookup.SpaceRun | src/utils/doiLookup.js:183 | the scan for `\s*` stops exactly at the first non-whitespace character |
| DoiLookup.WellFormedCaptureIs | src/utils/doiLookup.js:183-189 | once the prefix at an index ends at `e`, the well-formed captures from that index are exactly those ending after `e` and within the non-whitespace run that follows |
| DoiLookup.CaptureEndSpec | src/utils/doiLookup.js:183 | the greedy capture ends at `b` exactly when the text from the start to `b` is a well-formed DOI followed by whitespace or the end of the text |
| DoiLookup.LastBoundary | src/utils/doiLookup.js:189 | backtracking to the final `\b` stops at a word-boundary position within the run |
| DoiLookup.LastBoundaryLargest | src/utils/doiLookup.js:189 | no word boundary lies after the position found, and there is none at all in the run when nothing is found |
| DoiLookup.LastBoundaryIs | src/utils/doiLookup.js:189 | a boundary in the run with no boundary after it is the position found |
| DoiLookup.MatchAt | src/utils/doiLookup.js:181-190 | a match at an index captures a non-empty range at or after that index |
| DoiLookup.MatchAtSpec | src/utils/doiLookup.js:181-190 | each of the four patterns matches at an index with capture bounds `(a, b)` exactly when its regular expression does |
| DoiLookup.MatchAtSound | src/utils/doiLookup.js:181-190 | a match of any of the four patterns captures a well-formed DOI |
| DoiLookup.UrlMatch | src/utils/doiLookup.js:185 | the capture starts at least 15 characters after the index, after the prefix |
| DoiLookup.UrlMatchSpec | src/utils/doiLookup.js:185 | it matches exactly when `http://doi.org/` or `https://doi.org/` stands at the index, without regard to case, followed by the greedy capture |
| DoiLookup.PlainMatch | src/utils/doiLookup.js:189 | the capture starts at the index itself |
| DoiLookup.PlainMatchSpec | src/utils/doiLookup.js:189 | it matches `(i, b)` exactly when a word boundary is at `i` and at `b`, the text between is a well-formed DOI, and no longer well-formed capture from `i` ends at a boundary |
| DoiLookup.ColonMatch | src/utils/doiLookup.js:183 | the capture starts after the four-character marker |
| DoiLookup.ColonMatchSpec | src/utils/doiLookup.js:183 | it matches `(a, b)` exactly when the marker stands at the index without regard to case, only whitespace lies between it and `a`, and `a` to `b` is the greedy capture |
| DoiLookup.ColonPatternsAgree | src/utils/doiLookup.js:183-187 | the `DOI:` pattern, being case-insensitive too, matches exactly where `doi:` matches |
| DoiLookup.FirstMatchAt | src/utils/doiLookup.js:193 | `text.match` finds the leftmost matching index, and no pattern match lies before it |
| DoiLookup.FirstPatternMatch | src/utils/doiLookup.js:192-199 | the capture found has the DOI prefix shape and no whitespace; nothing is found exactly when no pattern matches anywhere |
| DoiLookup.FirstPatternMatchIs | src/utils/doiLookup.js:192-199 | when the patterns before pattern `k` match nowhere, the result is the capture of pattern `k` at its leftmost match |
| DoiLookup.DropTrailingPunctuation | src/utils/doiLookup.js:197 | exactly one trailing `.,;:!?` is dropped when present, and nothing else changes |
| DoiLookup.TidyCapture | src/utils/doiLookup.js:195-197 | trimming and dropping the punctuation keep the DOI prefix shape and the absence of whitespace |
| DoiLookup.ExtractDoi | src/utils/doiLookup.js:177-202 | empty text gives `null`; an extracted DOI has no whitespace and starts `10.` + at least four digits + `/` |
| DoiLookup.ExtractDoiIs | src/utils/doiLookup.js:177-202 | the DOI returned is the capture of the first pattern, in order, that matches anywhere, taken at its leftmost match, with one trailing `.,;:!?` dropped |
| DoiLookup.LabelledDoiFound | src/utils/doiLookup.js:177-202 | a DOI written after `doi: ` is returned as written when it does not end in punctuation |
| DoiLookup.BareDoiFound | src/utils/doiLookup.js:177-202 | a DOI standing alone, with no colon and ending in a word character, is returned as written |
| DoiLookup.ExtractDoiNone | src/utils/doiLookup.js:177-202 | for non-empty text, `null` is returned exactly when none of the four patterns matches anywhere |
| DoiLookup.ReferenceTypeOf | src/utils/doiLookup.js:68-79 | the result is always one of the seven reference types; an unmapped CrossRef type becomes Journal Article |
| DoiLookup.FormatNameEmpty | src/utils/doiLookup.js:82-86 | a contributor formats to the empty name, and is then dropped by `filter(Boolean)`, exactly when both its names are missing |
| DoiLookup.FormatNames | src/utils/doiLookup.js:96-100 | never more names than contributors; a first contributor with a name gives the first name |
| DoiLookup.FormatNamesMembers | src/utils/doiLookup.js:96-100 | the names kept are exactly the non-empty formatted names of the contributors |
| DoiLookup.FormatNamesAppend | src/utils/doiLookup.js:96-100 | formatting a concatenation formats each part in turn, so order and repetitions are kept |
| DoiLookup.FormatNamesSingleton | src/utils/doiLookup.js:96-100 | one contributor gives its name, or nothing when the name is empty |
| DoiLookup.FormatNamesKeepsAll | src/utils/doiLookup.js:96-100 | when every contributor has a name, the names correspond one to one with the contributors, in order |
| DoiLookup.PublishedYear | src/utils/doiLookup.js:89-90 | the first date part when it is non-zero, else the current year |
| DoiLookup.CitationKeyShape | src/utils/doiLookup.js:133-142 | the key is the letters of the first author's family name followed by the decimal year, and `Unknown` + year when there is no first author or its family name is missing |
| Text.LettersOnlyAppend | src/utils/doiLookup.js:140 | removing the non-letters of a concatenation removes them from each part, so the letters keep their order |
| Text.LettersOnlySingleton | src/utils/doiLookup.js:140 | a single character is kept exactly when it is an ASCII letter |
| DoiLookup.CitationKeyWithoutLetters | src/utils/doiLookup.js:139-141 | a family name without letters gives an empty stem: the key is the year alone |
| DoiLookup.MapWork | src/utils/doiLookup.js:93-121 | the metadata's type is a library type, its url falls back to the doi.org URL, its doi is the cleaned one, and its abstract is single-spaced |
| DoiLookup.LookupRequest | src/utils/doiLookup.js:40-45 | a request is made exactly when the DOI is not blank |
| DoiLookup.LookupDoi | src/utils/doiLookup.js:39-126 | a blank DOI, a non-ok status, a missing `message` or an unreadable body give `null`; a body with a `message` gives the work mapped from it under the cleaned DOI |
| DoiExamples.CleanAbstractExample | src/utils/doiLookup.js:11-32 | a JATS abstract with an escaped `&amp;` and extra spacing cleans to the expected sentence |
| DoiExamples.DecodeOnePass | src/utils/doiLookup.js:22-26 | `&amp;lt;` decodes to `&lt;`, not to `<`: each entity pass runs once, in order |
| DoiExamples.ValidBareDoi | src/utils/doiLookup.js:149-158 | a bare DOI is valid |
| DoiExamples.ValidDoiUrl | src/utils/doiLookup.js:149-158 | a doi.org URL is a valid DOI |
| DoiExamples.InvalidDois | src/utils/doiLookup.js:149-158 | the empty string and a non-DOI are not valid |
| DoiExamples.ExtractDoiExample | src/utils/doiLookup.js:177-202 | a labelled DOI ending a sentence is extracted without the final period |
| ReferenceDetails.EntryType | src/components/ReferenceDetails.jsx:63-72 | the entry type is always a BibTeX type, `article` for an unknown reference type |
| ReferenceDetails.EntryTypesDistinct | src/components/ReferenceDetails.jsx:63-71 | distinct library types get distinct entry types |
| ReferenceDetails.AuthorStem | src/components/ReferenceDetails.jsx:59 | the stem is the letters of the first author's text before its first comma, or `Unknown` when there are none or there is no author |
| ReferenceDetails.CitationKeyShape | src/components/ReferenceDetails.jsx:59-60 | a stored key wins; otherwise the author stem followed by the year: the letters of the first author's text before its comma, or `Unknown` + year when it has none |
| ReferenceDetails.AccumulatedIsJoined | src/components/ReferenceDetails.jsx:76-133 | field lines each followed by `,\n` are the lines joined by `,\n` plus one trailing `,\n` |
| ReferenceDetails.PrefixIsDraft | src/components/ReferenceDetails.jsx:75-130 | after each `if (…) bibtex += …` step, the text is the header followed by every emitted field so far |
| ReferenceDetails.AppendField | src/components/ReferenceDetails.jsx:78-130 | one step appends the field's line and `,\n` exactly when the field is present |
| ReferenceDetails.OpenEntry | src/components/ReferenceDetails.jsx:75 | the entry opens with `@type{key,` and a newline |
| ReferenceDetails.CopyBibTeX | src/components/ReferenceDetails.jsx:57-137 | the string built step by step is the declarative BibTeX entry |
| ReferenceDetails.CloseEntry | src/components/ReferenceDetails.jsx:133 | slicing off the final two characters removes exactly the last `,\n` before `\n}` is added |
| ReferenceDetails.FullPrefix | src/components/ReferenceDetails.jsx:75-130 | the full draft is the header, the joined field lines, and a trailing `,\n` |
| ReferenceDetails.TitleAlwaysFirst | src/components/ReferenceDetails.jsx:76 | the title is always the first field, even when empty |
| ReferenceDetails.KeptSlotsSpec | src/components/ReferenceDetails.jsx:78-130 | the emitted fields are exactly the present candidates, each once, in order |
| ReferenceDetails.FieldsInOrder | src/components/ReferenceDetails.jsx:76-130 | the entry's fields follow the fixed order, and a field appears exactly when it is present |
| ReferenceDetails.CandidateNames | src/components/ReferenceDetails.jsx:76-130 | each candidate has the field name of its position in the output order |
| ReferenceDetails.AbstractWithoutBraces | src/components/ReferenceDetails.jsx:128 | the abstract is written without `{` or `}` |
| ReferenceDetails.BibTeXShape | src/components/ReferenceDetails.jsx:75-133 | the entry starts with its header and ends in `}\n}`, with no comma before the close |
| ReferenceDetails.Apa | src/components/ReferenceDetails.jsx:139-144 | the citation is `authors (year). title. ` then the journal and a final period, and nothing else |
| ReferenceDetails.ApaWithoutJournal | src/components/ReferenceDetails.jsx:141 | without a journal the citation ends in `. .` |
| ReferenceDetails.ApaSingleAuthor | src/components/ReferenceDetails.jsx:140 | a single author is printed as stored, with no separator |
| ReferenceDetails.RemoveSpec | src/components/ReferenceDetails.jsx:164 | the filter drops every occurrence of the id and keeps every other id as often as before |
| ReferenceDetails.Toggle | src/components/ReferenceDetails.jsx:162-165 | a present collection is filtered out entirely; an absent one is appended at the end; other ids keep their counts |
| ReferenceDetails.RemoveAppend | src/components/ReferenceDetails.jsx:164 | filtering a concatenation filters each part, so the order of the other ids is kept |
| ReferenceDetails.RemoveSingleton | src/components/ReferenceDetails.jsx:164 | a single id is dropped exactly when it is the one removed |
| ReferenceDetails.ToggleTwiceAbsent | src/components/ReferenceDetails.jsx:162-165 | toggling twice restores a list that did not hold the collection |
| ReferenceDetails.ToggleTwicePresent | src/components/ReferenceDetails.jsx:162-165 | toggling twice a list that held the collection once moves it to the end |
| ReferenceDetails.CollectionPatch | src/components/ReferenceDetails.jsx:168 | the update object carries the collection list and no other key |
| ReferenceDetails.CollectionPatchApplied | src/components/ReferenceDetails.jsx:168 | merging it changes the reference's collections and nothing else |
| ReferenceDetails.PdfKey | src/components/ReferenceDetails.jsx:183 | the file is stored under the reference's pdfId, else under its id |
| ReferenceDetails.HandlePdfUpload | src/components/ReferenceDetails.jsx:171-206 | no file does nothing; a non-PDF is refused; a failed save or metadata read fails; otherwise the update object records the file and fills only empty fields |
| ReferenceDetails.UploadPatch | src/components/ReferenceDetails.jsx:188-204 | the update object sets pdfId and hasPDF, fills each empty field the metadata has, and adds a new journal ranking to the tags |
| ReferenceDetails.FillText | src/components/ReferenceDetails.jsx:194-201 | a key is set exactly when the stored value is empty and the metadata has one, and then to the metadata's value |
| ReferenceDetails.UploadPatchApplied | src/components/ReferenceDetails.jsx:188-206 | merging the upload's update object gives the reference with its empty fields filled |
| ReferenceDetails.FilledKeepsStored | src/components/ReferenceDetails.jsx:194-204 | an upload never overwrites a stored field, keeps every tag, and keeps notes, collections and review |
| ReferenceDetails.FilledIdempotent | src/components/ReferenceDetails.jsx:188-204 | uploading the same file again changes nothing more |
| ReferenceDetails.RefreshPatch | src/components/ReferenceDetails.jsx:344-361 | no lookup result means no update; otherwise the update carries exactly the fourteen bibliographic keys |
| ReferenceDetails.RefreshPrefersFound | src/components/ReferenceDetails.jsx:346-361 | for each of the fourteen refreshed fields, a looked-up value replaces the stored one, and where the lookup has none the stored value stays |
| ReferenceDetails.RefreshNeverEmpties | src/components/ReferenceDetails.jsx:346-361 | a refresh never empties a stored field |
| ReferenceDetails.RefreshKeepsLibraryData | src/components/ReferenceDetails.jsx:346-361 | notes, tags, collections, the attached PDF, the citation key and the review survive a refresh |
| ReferenceDetails.RefreshIdempotent | src/components/ReferenceDetails.jsx:346-361 | refreshing twice with the same lookup result is refreshing once |
| References.Apply | src/components/ReferenceDetails.jsx:168 | the merge never changes the id, notes, favourite flag or citation key; every other field takes the update's value when the update has that key and keeps the old one otherwise |
| GeminiService.Truncate | src/utils/geminiService.js:29 | the text sent is the paper's first 30000 characters, or all of it when shorter |
| GeminiService.PromptEmbedsPrefix | src/utils/geminiService.js:12-30 | the prompt is the instructions followed by the paper, and never holds more than 30000 of its characters |
| GeminiService.IndexOf | src/utils/geminiService.js:96 | the first `{` in the answer, or none exactly when there is no `{` |
| GeminiService.LastIndexOf | src/utils/geminiService.js:96 | the last `}` in the answer, or none exactly when there is no `}` |
| GeminiService.ExtractJsonFinds | src/utils/geminiService.js:96-97 | `/\{[\s\S]*\}/` matches exactly when some `{` has a `}` after it |
| GeminiService.ExtractJsonSpan | src/utils/geminiService.js:96-101 | the match runs from the first `{` to the last `}`, so it may span several objects |
| GeminiService.Caught | src/utils/geminiService.js:104-111 | a caught error is rethrown exactly when its message mentions "API Key Invalid"; otherwise it becomes `lastError` |
| GeminiService.InvalidKeyMessage | src/utils/geminiService.js:78-79 | the message a 400 throws starts with "API Key Invalid: " and so carries the marker the `catch` rethrows on |
| GeminiService.TryCases | src/utils/geminiService.js:67-112 | a turn parses exactly for an ok, non-empty answer whose JSON text parses, giving that value; a 404 moves on with "Model … not found"; a thrown error, another status (a 400 always rethrown, others as "API Error …"), an empty answer, a missing JSON object and a parse error each reach the `catch` with their own message, which is rethrown exactly when it carries the marker |
| GeminiService.AnalyzePaperWithGemini | src/utils/geminiService.js:7-117 | without a key nothing is sent; otherwise the models are tried in order, each at most once, until the first that does not move on, and the outcome is that of the loop's definition |
| GeminiService.NotFoundMovesOn | src/utils/geminiService.js:71-75 | a 404 moves on to the next model with "Model … not found" as the last error |
| GeminiService.BadRequestAborts | src/utils/geminiService.js:78-80 | a 400 ends the loop at once with an "API Key Invalid: …" error |
| GeminiService.AllFailed | src/utils/geminiService.js:113-116 | when every model moves on, the error quotes the last model's error |
| GeminiService.AnalysisIsParsed | src/utils/geminiService.js:96-102 | a success is what `JSON.parse` made of the JSON text found in some model's answer |
| NoveltyEvaluator.Classify | src/components/NoveltyEvaluator.jsx:69-89 | a PDF by its type; otherwise code by a `text/` type or a `.py`/`.js`/`.java` name; otherwise neither |
| NoveltyEvaluator.PdfSummary | src/components/NoveltyEvaluator.jsx:75-78 | the summary of a PDF starts with `Title: ` |
| NoveltyEvaluator.PdfSummaryNotBlank | src/components/NoveltyEvaluator.jsx:75-78 | a PDF's summary is never blank, so it always passes the content check |
| NoveltyEvaluator.PromptReplacesFirstPlaceholder | src/components/NoveltyEvaluator.jsx:133 | the input replaces the first `{CONTENT}` exactly; later placeholders stay |
| NoveltyEvaluator.CerebrasTurn | src/components/NoveltyEvaluator.jsx:163-176 | a turn yields text exactly for an ok reply with non-empty content, and that content; it stops exactly on a 401 (with "Invalid Cerebras API key") or on a caught error whose message contains "Invalid" (with that message); every other reply moves on |
| NoveltyEvaluator.CerebrasChain | src/components/NoveltyEvaluator.jsx:138-178 | the Cerebras loop yields non-empty text or none |
| NoveltyEvaluator.UnauthorizedIsRethrown | src/components/NoveltyEvaluator.jsx:170-176 | the error a 401 throws mentions "Invalid", so the `catch` rethrows it like any error that does |
| NoveltyEvaluator.SkipMovesOn | src/components/NoveltyEvaluator.jsx:141-177 | a model that moves on hands the loop, and the next request, to the following model |
| NoveltyEvaluator.ChainIsFirstDecidingTurn | src/components/NoveltyEvaluator.jsx:141-177 | the models are asked in order up to the first that does not move on, and the loop's result is that model's turn; it moves on as a whole, having asked every model, exactly when every model moves on |
| NoveltyEvaluator.CerebrasTriedExcludesGemini | src/components/NoveltyEvaluator.jsx:139-177 | the Cerebras loop only asks Cerebras models |
| NoveltyEvaluator.StopAborts | src/components/NoveltyEvaluator.jsx:170-176 | a 401 or an "Invalid" error from either Cerebras model ends the evaluation with that error, and Gemini is not asked |
| NoveltyEvaluator.CerebrasTextIsFinal | src/components/NoveltyEvaluator.jsx:163-169 | content from either Cerebras model is the evaluation, and Gemini is not asked |
| NoveltyEvaluator.SecondModelDecides | src/components/NoveltyEvaluator.jsx:141-177 | after the first model moves on, both models are asked and the second model's content or abort decides the evaluation |
| NoveltyEvaluator.EveryModelMovesOn | src/components/NoveltyEvaluator.jsx:141-183 | when both Cerebras models move on, both are asked, then Gemini exactly when its key is not blank; with a blank Gemini key the evaluation ends with "No evaluation returned…" |
| NoveltyEvaluator.RejectedExactly | src/components/NoveltyEvaluator.jsx:114-126 | an evaluation is refused exactly for blank content or when neither key is set, and then nothing is sent |
| NoveltyEvaluator.UnauthorizedAborts | src/components/NoveltyEvaluator.jsx:170-176 | a 401 from the first Cerebras model ends the evaluation with "Invalid Cerebras API key", and nothing else is asked |
| NoveltyEvaluator.FirstCompletionWins | src/components/NoveltyEvaluator.jsx:163-169 | content from the first Cerebras model is the evaluation, and nothing else is asked |
| NoveltyEvaluator.GeminiFailureIsFinal | src/components/NoveltyEvaluator.jsx:181-195 | when Gemini is asked and throws, its message, prefixed, is the error |
| NoveltyEvaluator.BlankKeysAskNobody | src/components/NoveltyEvaluator.jsx:120-199 | keys made only of spaces pass the key check but ask no provider, so the evaluation ends with "No evaluation returned…" |
| NoveltyEvaluator.EvaluatedIsNotEmpty | src/components/NoveltyEvaluator.jsx:197-201 | a successful evaluation carries non-empty text |
| NoveltyEvaluator.Evaluator.constructor | src/components/NoveltyEvaluator.jsx:8-13 | the panel starts on text input, with no content, file, evaluation or error |
| NoveltyEvaluator.Evaluator.ProcessFile | src/components/NoveltyEvaluator.jsx:69-89 | a PDF is kept and its summary becomes the input (or the read error is set); a code file's text becomes the input; any other file changes nothing |
| NoveltyEvaluator.Evaluator.HandleClear | src/components/NoveltyEvaluator.jsx:210-215 | the input, file, evaluation and error are cleared; the input type stays |
| NoveltyEvaluator.Evaluator.HandleEvaluate | src/components/NoveltyEvaluator.jsx:114-208 | the requests sent and the new evaluation or error are those of the evaluation's definition; the input is untouched |
| NoveltyEvaluator.AskProviders | src/components/NoveltyEvaluator.jsx:132-199 | the text or the thrown message is the evaluation's definition, and the models asked are its requests |
| NoveltyEvaluator.CerebrasLoop | src/components/NoveltyEvaluator.jsx:138-178 | the loop asks the models up to the first that does not move on, and returns its text or rethrown error |
| PdfTextExtractor.PagesToRead | src/utils/pdfTextExtractor.js:24 | never more pages than the document has, nor more than the limit; none for a negative limit |
| PdfTextExtractor.DefaultLimit | src/utils/pdfTextExtractor.js:15-24 | without an explicit limit a document of up to 15 pages is read whole, and a longer one only up to page 15 |
| PdfTextExtractor.ExtractPdfText | src/utils/pdfTextExtractor.js:15-38 | the loop's result is the declarative text of the pages read, or the extraction error |
| PdfTextExtractor.EarlierPagesComeFirst | src/utils/pdfTextExtractor.js:26-31 | the text of fewer pages is a prefix of the text of more: pages come in order |
| PdfTextExtractor.LastPageEnds | src/utils/pdfTextExtractor.js:29-30 | each page read ends the text with its own `--- Page n ---` block |
| PdfTextExtractor.NoPagesNoText | src/utils/pdfTextExtractor.js:23-33 | no pages, or a limit that is not positive, gives the empty text |
| PdfTextExtractor.PagesPastLimitIgnored | src/utils/pdfTextExtractor.js:24-31 | documents that agree on the pages read give the same result |
| PdfTextExtractor.FailsExactly | src/utils/pdfTextExtractor.js:34-36 | extraction fails, with the fixed message, exactly when the file or one of the pages read cannot be loaded |
| TechnicalSheet.Defaults | src/components/TechnicalSheet.jsx:5-15 | the default review has the nine text fields empty and a rating of 0 |
| TechnicalSheet.InitialReview | src/components/TechnicalSheet.jsx:5-17 | each stored key overrides its default, missing keys keep their default, and no stored review leaves the defaults |
| TechnicalSheet.CompleteReviewOpensAsStored | src/components/TechnicalSheet.jsx:16 | a stored review with every default key opens unchanged |
| TechnicalSheet.FieldChange | src/components/TechnicalSheet.jsx:26-28 | the field gets the new value and every other field keeps its value |
| TechnicalSheet.FieldChangeLastWins | src/components/TechnicalSheet.jsx:26-28 | changing a field twice keeps only the second value |
| TechnicalSheet.FieldChangesCommute | src/components/TechnicalSheet.jsx:26-28 | changes to different fields can be made in either order |
| TechnicalSheet.ActiveStars | src/components/TechnicalSheet.jsx:71-76 | a star is listed active exactly when it is at most the rating |
| TechnicalSheet.ClickedStarsAreActive | src/components/TechnicalSheet.jsx:71-76 | after clicking star n the rating is n and exactly the first n stars are active |
| TechnicalSheet.RatingLabel | src/components/TechnicalSheet.jsx:82-84 | ratings 1–5 get their label, a rating of 0 or less gets "Rate this paper", and a rating above 5 renders nothing |
| TechnicalSheet.RatingLabelIdentifiesRating | src/components/TechnicalSheet.jsx:82-84 | each star's rating has its own label, distinct from the unrated one |
| TechnicalSheet.SaveReplacesOnlyReview | src/components/TechnicalSheet.jsx:21-24 | saving sends the reference's id and changes its stored review and nothing else |
| TechnicalSheet.SavedReviewReopens | src/components/TechnicalSheet.jsx:5-24 | a review saved from the sheet is what the sheet opens with next time |
| TechnicalSheet.SheetReviewsAreComplete | src/components/TechnicalSheet.jsx:5-28 | every review the sheet holds has all the default keys |
| ReferenceList.EverySelectedChecks | src/components/ReferenceList.jsx:29 | selecting every reference once checks the select-all box |
| ReferenceList.AllSelectedIsLengthOnly | src/components/ReferenceList.jsx:29 | the box compares counts only: a repeated id can check it while another reference is unselected |
| ReferenceList.SelectAllChanged | src/components/ReferenceList.jsx:41 | a checked box exits selection mode exactly when all are selected; otherwise it selects all |
| ReferenceList.NumberTextNeverBlank | src/components/ReferenceList.jsx:107-109 | a number's decimal form is never blank after `trim()` |
| ReferenceList.UntouchedReviewHasNoBadge | src/components/ReferenceList.jsx:107-109 | a default review, rated or not, shows no review badge |
| ReferenceList.WrittenFieldShowsBadge | src/components/ReferenceList.jsx:107-109 | writing non-blank text into any non-rating field shows the badge |
| ReferenceList.AbstractPreview | src/components/ReferenceList.jsx:166-172 | the abstract paragraph is absent exactly for an empty abstract |
| ReferenceList.PreviewIsPrefix | src/components/ReferenceList.jsx:168-170 | a short abstract is shown whole; a long one as its first 150 characters and `...` |
| ReferenceList.CardClick | src/components/ReferenceList.jsx:77 | a click selects the card's reference exactly outside selection mode |
| ReferenceList.Cards | src/components/ReferenceList.jsx:73-184 | one card per reference, in order |
| ReferenceList.RenderShowsEveryReference | src/components/ReferenceList.jsx:19-34 | the empty state is shown exactly for no references; otherwise the toolbar appears exactly in selection mode, and the cards follow the references |
| ReferenceList.CheckboxesFollowSelection | src/components/ReferenceList.jsx:79-84 | cards have checkboxes exactly in selection mode, checked exactly for selected references |
| Sidebar.SubmittedSpec | src/components/Sidebar.jsx:31-32 | nothing is submitted exactly for a blank name; otherwise the trimmed name, never empty |
| Sidebar.SubmittedIsTrimmed | src/components/Sidebar.jsx:31-32 | a submitted name has no whitespace at either end, and submitting it again gives it back |
| Sidebar.SidebarState.constructor | src/components/Sidebar.jsx:23-28 | all forms start closed and empty, and nothing is dragged over |
| Sidebar.SidebarState.StartAdding | src/components/Sidebar.jsx:198 | the add form opens; nothing else changes |
| Sidebar.SidebarState.TypeNewName | src/components/Sidebar.jsx:214 | the new name is what was typed; nothing else changes |
| Sidebar.SidebarState.CancelAdding | src/components/Sidebar.jsx:228-230 | the add form closes and its name is cleared |
| Sidebar.SidebarState.HandleAddCollection | src/components/Sidebar.jsx:30-36 | a non-blank name is passed on trimmed and the form cleared and closed; a blank one calls nothing and changes nothing |
| Sidebar.SidebarState.StartEditing | src/components/Sidebar.jsx:46-49 | the rename form opens on that collection with its current name |
| Sidebar.SidebarState.TypeEditingName | src/components/Sidebar.jsx:253 | the edited name is what was typed; nothing else changes |
| Sidebar.SidebarState.CancelEditing | src/components/Sidebar.jsx:267-270 | the rename form closes and its name is cleared |
| Sidebar.SidebarState.HandleRenameCollection | src/components/Sidebar.jsx:38-44 | a non-blank name is passed on trimmed with the id and the form closed; a blank one calls nothing and changes nothing |
| Sidebar.SidebarState.StartDeleting | src/components/Sidebar.jsx:324 | the delete confirmation opens for that collection |
| Sidebar.SidebarState.HandleDeleteCollection | src/components/Sidebar.jsx:51-54 | the collection is passed to the delete callback and the confirmation closes |
| Sidebar.SidebarState.HandleDrag | src/components/Sidebar.jsx:64-74 | dragging over highlights the drop zone and leaving removes the highlight |
| Sidebar.SidebarState.HandleDrop | src/components/Sidebar.jsx:76-85 | the highlight goes and the dropped PDFs, if any, are passed on |
| Sidebar.PdfFilesSpec | src/components/Sidebar.jsx:57 | exactly the PDFs are kept, each as often as chosen |
| Sidebar.AllPdfsKept | src/components/Sidebar.jsx:57 | when every file is a PDF, all are passed on in order |
| Sidebar.FilesDropped | src/components/Sidebar.jsx:56-62 | the callback is called only with a non-empty list of PDFs, and not at all exactly when no file is a PDF |
| Sidebar.ChooseItem | src/components/Sidebar.jsx:150-153 | choosing a library item selects it and clears the collection |
| Sidebar.ChooseCollection | src/components/Sidebar.jsx:297-300 | choosing a collection selects it together with the All Papers folder |
| Sidebar.ChosenItemAloneActive | src/components/Sidebar.jsx:149-153 | after choosing an item it alone is active, and no collection is |
| Sidebar.ChosenCollectionAloneActive | src/components/Sidebar.jsx:296-300 | after choosing a collection it alone is active, not even All Papers |
| Sidebar.ActiveIsExclusive | src/components/Sidebar.jsx:149 | a library item and a collection are never both drawn active |
| CompareLocales.PathOf | src/i18n/locales/compare.cjs:8 | the path is `prefix.key`, or the key alone for an empty prefix |
| CompareLocales.GetKeys | src/i18n/locales/compare.cjs:5-16 | the loop with its recursive call returns the declarative list of paths, one per leaf |
| CompareLocales.PathCount | src/i18n/locales/compare.cjs:5-16 | there is exactly one path per leaf, nested objects included |
| CompareLocales.FlatObjectPaths | src/i18n/locales/compare.cjs:7-12 | for an object of leaves, the paths are its keys under the prefix, in order |
| CompareLocales.EmptyObjectHasNoPath | src/i18n/locales/compare.cjs:9-10 | an empty nested object contributes no path |
| CompareLocales.NestedPathsArePrefixed | src/i18n/locales/compare.cjs:8-10 | every path inside a nested object starts with that object's path and a dot |
| CompareLocales.WithoutSpec | src/i18n/locales/compare.cjs:28-31 | a filtered list holds the keys of the first list missing from the second, each as often as before |
| CompareLocales.Compare | src/i18n/locales/compare.cjs:28-31 | each missing or extra list holds exactly the keys of one file absent from the other |
| CompareLocales.MissingAndExtraAreDisjoint | src/i18n/locales/compare.cjs:28-31 | a missing key is absent from the translation and never also reported extra |
| CompareLocales.NothingLeftIffCovered | src/i18n/locales/compare.cjs:28-31 | a filter leaves nothing exactly when every key of the first list is in the second |
| CompareLocales.SynchronizedIffSameKeys | src/i18n/locales/compare.cjs:63-64 | the files are reported synchronised exactly when the three sets of paths are equal |
| CompareLocales.SortingKeepsVerdicts | src/i18n/locales/compare.cjs:18-20 | reordering the key lists (as the sort does) changes no reported key or count |
| Text.BlankIsTrimEmpty | src/components/Sidebar.jsx:31 | `trim()` of a string is empty exactly when the string is all whitespace |
| Text.TrimIdempotent | src/utils/doiLookup.js:45 | trimming twice is trimming once |
| Text.ReplaceFirstAt | src/components/NoveltyEvaluator.jsx:133 | replacing with a string pattern splits the text at the pattern's leftmost occurrence |
| Text.ReplaceAllPrefixFree | src/utils/doiLookup.js:22-26 | a prefix without the pattern's first character passes through a global replace untouched |

## Left out

- Network, SDKs and storage are not executed.
  - `fetch`, the Gemini SDK and the Cerebras API are modelled as parameters: the reply to
    each request (`respond`, `cerebras`, `gemini`, `RegistryResponse`).
  - Their timing and concurrency are not modelled.
- `JSON.parse` is the parameter `parse` of the Gemini loop. JSON text itself is not parsed.
- pdf.js is not modelled. A document is the sequence of its pages' text items, or the
  failure to load it.
- The PDF metadata reader (`extractPDFMetadata`) is not modelled: its result is an input
  (`PdfMetadata`), or `None` when it throws.
- `savePDF` is not modelled: its success is the `saved` flag.
- `getPDFBlob` and the PDF download are not modelled.
- The store behind `onUpdate`/`onDelete` is stood for by `References.Apply`, which does the
  object spread of an update object into a reference.
- Years:
  - `Reference.year` is text.
  - The CrossRef year is a number, rendered in decimal (`IntToString`) when a refresh
    stores it.
  - A reference with no year at all (rendered `undefined` by a template string) is
    modelled as the empty year.
- The `$` substitution patterns of `String.prototype.replace` are not interpreted.
  - The prompt template's replacement (`ReplaceFirst`) treats the input as literal text.
  - An input containing `$&` or `$1` would be expanded by JavaScript.
- The fixed prompt texts of the Gemini analysis and the novelty evaluation are parameters
  (`instructions`, `template`). Their wording is not part of this model.
- Not modelled, since they have no effect on the state that is modelled:
  - `alert`, the clipboard, `console`, and JSX markup beyond what each card and toolbar
    shows;
  - the loading flags (`isUploadingPdf`, `isAIAssisting`);
  - the AI-assist placeholder of the technical sheet;
  - the view-mode toggle.
- The API keys read from `localStorage` are parameters (`""` when absent).
- Translated messages (`t('…')`) are the constructors `ProvideContent` and
  `ConfigureApiKey`, not their text.
- `for…in` key order is not modelled. An object's members are given in the order the loop
  visits them.
- Floating point is not modelled, so the storage bar's percentage in the sidebar is left
  out.
- `NoveltyEvaluator.HandleEvaluate`: the state is stated once the awaits have completed.
  The intermediate `isEvaluating = true` render, and a second click while one is pending,
  are not modelled.
- `TechnicalSheet.Rating`: a rating stored as text (a JSON value that is not a number)
  compares as 0 here. JavaScript would coerce it.
- String lengths are counted in characters, not UTF-16 code units. This affects
  `substring(0, 30000)` and `substring(0, 150)` for text outside the Basic Multilingual
  Plane.
- `PdfTextExtractor.PagesToRead`: `maxPages` is an integer. A fractional limit is not
  modelled.
- `CompareLocales.SortingKeepsVerdicts`: the sort order of `Array.prototype.sort` is not
  defined. The lemma covers every reordering instead.
- `SearchBar`, `SettingsModal` and `LanguageSwitcher` are outside this model.
- `new Date().getFullYear()` is the parameter `currentYear`.
- Whitespace (`\s`, `trim()`) is a fixed set of characters:
  - the ASCII whitespace characters;
  - no-break space;
  - the Unicode space separators, line and paragraph separators, and the byte-order mark.
- `ReferenceList.PreviewIsPrefix` is stated one way. The preview does not identify the
  abstract, because two long abstracts that share 150 characters have the same preview.
- `GeminiService.AnalyzePaperWithGemini`: the initial `lastError` is rendered as the text
  `undefined`, as a template string would render it.
- `ReferenceDetails.HandlePdfUpload`: the object URL created to display the PDF is not
  modelled.
- The type tables (src/utils/doiLookup.js:79 and src/components/ReferenceDetails.jsx:63-72)
  are plain maps. A key such as `constructor` or `toString`, which JavaScript would find
  on `Object.prototype`, is not modelled.
- A reference always has `authors` and `title` here.
  - Without `authors`, src/components/ReferenceDetails.jsx:59 and :140 throw.
  - Without `title`, the BibTeX entry and the citation print `undefined`.
  - Neither case is modelled.
