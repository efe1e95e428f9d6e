# Metabase dashboard extractor: the selection and wording rules

`MetabaseDashboardExtract` (metabase_extract.py) logs into a Metabase
instance and captures each panel of a municipio's tourism dashboard as a PNG.
It asks a Gemini model which panels help answer a question, and writes one
Word report per municipio. Nearly all of that is I/O. This project models the
deterministic rules inside it, and proves what they guarantee:

- **`capture_dashboard`**:
  - the title each card gets from five CSS selectors tried in order;
  - the `grafico_{i+1}` fallback;
  - the sanitiser that turns a title into a file name;
  - the files one tab produces.
- **`get_image_description_from_gemini`**: how the reply text is extracted, and how every failure becomes `None`.
- **`select_relevant_images`**: the `.png` filter and the permissive `"true" in result.lower()` verdict.
- **`export_to_docx`**:
  - the report body: title, preamble, one section per tab in sorted order, and three blocks per relevant panel;
  - the section labels, panel captions and safe file name;
  - the fixed texts that stand in for a missing description or conclusion;
  - what the export saves as the code is written.

The browser, the model and the file system are parameters:

- **A card** is the map from selector to element text, plus whether its scroll, wait and screenshot went through.
- **The model's replies** are maps from an image's file name to `Option<string>`, one map per tab folder of each municipio; an image the map does not list gets no reply.
- **A folder** is its listing, plus the listings of its sub-folders.
- **A document** is the sequence of blocks added to its body, plus its footer logo. The preamble is a block of its own that carries the question; `Export.PreambleText` gives its text.

Python's `str.lower`, `title`, `capitalize`, `strip`, `replace`, `in`,
`endswith`, `str(n)`, string order and `sorted` are written out character by
character. They work over an abstract `Alphabet`: cased characters, white
space, and the upper and lower mappings. `WellFormed` states the laws the
proofs rely on. `Latin` is a concrete alphabet covering ASCII and every cased
Latin-1 character: the letters with both cases (á, é, ñ, ü, …), and `ª`, `º`
and `µ`, which Python counts as lower-case. The worked examples use it.

Modules:

- **`Wrappers`**: `Option` and `Result`.
- **`PyStr`**: the string operations.
- **`Capture`**: panel titles and file names.
- **`Reply`**: reply extraction.
- **`Relevance`**: the relevance filter.
- **`Labels`**: section labels, captions, safe names and fixed texts.
- **`Export`**: the report and the export.

### Notes on the code

**Quota.** Quota exhaustion is not set apart. `ResourceExhausted` is imported
(line 9) but never caught on its own: the single `except Exception` at lines
110-112 turns it into `None` like any other error. The model does the same
(`Reply.ExtractReply`, `Reply.QuotaExhaustionGivesNone`).

**One report per municipio.** The export builds a report for every municipio
folder, but it saves only one document; see the findings below.

## Model

| member | source | states |
|---|---|---|
| PyStr.TrimStart | metabase_extract.py:84 | `lstrip` cuts exactly the leading white space: the result is a suffix, everything cut is white space, and the result does not start with white space |
| PyStr.TrimEnd | metabase_extract.py:84 | `rstrip` cuts exactly the trailing white space: the result is a prefix, everything cut is white space, and the result does not end with white space |
| PyStr.StripSlice | metabase_extract.py:84 | `strip` returns a contiguous slice of its input with white space only cut at either end, and no white space at either end of the result |
| PyStr.StripEmptyIff | metabase_extract.py:84-85 | a stripped text is empty exactly when the text is all white space, so such a text never ends the selector loop |
| PyStr.LowerOfTitle | metabase_extract.py:194-195 | lower-casing a title-cased string gives the lower-cased original, so the keyword test does not depend on `title()` |
| PyStr.TitleIdempotent | metabase_extract.py:194 | title-casing twice is title-casing once |
| PyStr.TitleKeepsSpaces | metabase_extract.py:194 | title-casing keeps the length, and white space stays exactly where it was |
| PyStr.LatinTitleAfterOrdinal | metabase_extract.py:194 | `ª` is cased, so title-casing `ªb` leaves the `b` in lower case |
| PyStr.LowerIdempotent | metabase_extract.py:270 | lower-casing keeps the length and every uncased character, and lowering twice is lowering once |
| PyStr.LowerOfCapitalize | metabase_extract.py:155 | capitalising keeps the length and only changes case: lowering the result gives the lowered name |
| PyStr.CapitalizeIdempotent | metabase_extract.py:155 | capitalising twice is capitalising once |
| PyStr.ContainsIff | metabase_extract.py:134 | `p in s` holds exactly when `p` occurs at some position of `s` |
| PyStr.ReplaceCharIsMapChar | metabase_extract.py:194 | replacing a one-character pattern is a position-by-position substitution |
| PyStr.ReplaceAbsent | metabase_extract.py:194 | `replace` leaves a string without the pattern unchanged |
| PyStr.RemoveShortens | metabase_extract.py:194 | removing a pattern never lengthens a string |
| PyStr.RemovalIsSinglePass | metabase_extract.py:194 | `replace` is a single left-to-right pass: removing `100` from `101000` leaves `100` behind |
| PyStr.DecimalString | metabase_extract.py:91 | `str(n)` is a non-empty string of digits with no leading zero unless `n` is 0 |
| PyStr.DecimalRoundTrip | metabase_extract.py:91 | the decimal string of `n` reads back as `n` |
| PyStr.StrLeTotal | metabase_extract.py:189 | the string order used by `sorted` is total |
| PyStr.StrLeTransitive | metabase_extract.py:189 | the string order is transitive |
| PyStr.StrLeAntisymmetric | metabase_extract.py:189 | two strings each at most the other are equal |
| PyStr.SortedIsSortedPermutation | metabase_extract.py:189 | `sorted(listing)` is in order and a permutation of the listing |
| PyStr.SortedArrangementUnique | metabase_extract.py:189 | two ordered permutations of the same listing are equal, so the tab order is determined by the listing's contents |
| Capture.FirstTitleIsFirstYield | metabase_extract.py:80-89 | the loop's title is the stripped text of the first selector whose lookup succeeds with non-empty stripped text; it is empty exactly when no selector yields one; a failed lookup or empty text moves on |
| Capture.ResolveTitle | metabase_extract.py:80-91 | the selector loop with `break` ends with the first yielded title, or else `grafico_{i+1}`; the title is never empty |
| Capture.FallbackTitleNamesPosition | metabase_extract.py:90-91 | the fallback is `grafico_` followed by digits that read back as the card's 1-based position, with no illegal character |
| Capture.Sanitize | metabase_extract.py:93 | the stem is as long as the title but at most 80 characters, and holds no `<`, `>`, `:`, `"`, `/`, backslash, vertical bar, `?`, `*`, newline, carriage return or tab; legal characters keep their position; illegal ones become `_` |
| Capture.SanitizeIdempotent | metabase_extract.py:93 | sanitising twice is sanitising once |
| Capture.SanitizeKeepsCleanTitle | metabase_extract.py:93 | a title of at most 80 legal characters is its own stem |
| Capture.PanelFileNameShape | metabase_extract.py:93-94 | every file name is a stem of 1 to 80 legal characters followed by `.png` |
| Capture.UntitledCardFileName | metabase_extract.py:82-94 | a card on which no selector yields a title is saved as `grafico_{i+1}.png` |
| Capture.CaptureDashboard | metabase_extract.py:64-98 | the files a tab produces, cards of the generic pattern first, then those of the standalone pattern |
| Capture.CapturedFilesAreCapturedCards | metabase_extract.py:74-98 | the j-th file belongs to the j-th card whose capture went through, named by that card's own position; a failed card gets no file and does not shift the others |
| Reply.ExtractReply | metabase_extract.py:102-112 | a raised call gives `None`; a truthy direct `text` is returned as is; otherwise the first candidate's text is returned, even if empty; anything returned comes from one of these two |
| Reply.QuotaExhaustionGivesNone | metabase_extract.py:110-112 | quota exhaustion ends like any other failure, in `None` |
| Reply.EmptyDirectTextFallsThrough | metabase_extract.py:109 | an empty direct text falls through to the first candidate; with no candidate the call gives `None` |
| Relevance.IsRelevantIff | metabase_extract.py:134 | the verdict is positive exactly when there is a reply and `true` occurs somewhere in its lower-cased form |
| Relevance.PositiveVerdictExamples | metabase_extract.py:133-134 | `True.`, `TRUE`, `it seems true` and `untrue` count as positive |
| Relevance.NegativeVerdictExamples | metabase_extract.py:133-134 | `False`, the empty reply, no reply and a quota failure count as negative |
| Relevance.SelectRelevantImages | metabase_extract.py:119-138 | the loop returns the entries kept by the filter, in listing order |
| Relevance.RelevantIsOrderedFilter | metabase_extract.py:124-138 | the result is the subsequence of the listing at the strictly increasing positions of the `.png` entries with a positive verdict, and it holds every such entry |
| Relevance.RelevantMembership | metabase_extract.py:124-136 | an entry is returned exactly when it is listed, ends in `.png` and has a positive verdict |
| Labels.SectionLabelRule | metabase_extract.py:194-200 | `vuts`, then `hoteles`, then `oficiales` are looked for in the lower-cased cleaned tab name, in that priority; a name with none of them keeps its title-cased form |
| Labels.FallbackLabelShape | metabase_extract.py:194 | a title-cased label has no dash and no white space at either end |
| Labels.VutsTabLabel | metabase_extract.py:194-196 | the tab `100-vuts` is labelled `Casas rurales y viviendas de uso turístico` |
| Labels.StemOfImageName | metabase_extract.py:214 | `splitext` of `stem + ".png"` gives back the stem, for a stem with a character other than `.` |
| Labels.CaptionOfPanel | metabase_extract.py:214 | a panel's caption is its sanitised title with `_` shown as blanks, title-cased, for a title with a character other than `.` (for an all-dot title `splitext` does not split, and the caption is the whole file name title-cased, such as `....Png`) |
| Labels.CaptionHasNoUnderscore | metabase_extract.py:214 | a caption never shows `_` |
| Labels.DocsReportTitle | metabase_extract.py:155 | the report of the folder `docs` is titled `Informe de Docs` |
| Labels.SafeNameProperties | metabase_extract.py:270 | the safe name has the name's length and no blank, and making it safe again changes nothing |
| Export.PreambleText | metabase_extract.py:164-172 | the preamble is the fixed introduction, then the question exactly as given, then the fixed close |
| Export.AppendPanel | metabase_extract.py:210-247 | one selected panel adds its caption, its image, and then its stripped description or the failure notice |
| Export.AppendPanels | metabase_extract.py:210-247 | the inner loop adds, for each selected panel in order, its caption, its image and its description or the failure notice |
| Export.AppendSection | metabase_extract.py:194-247 | one tab adds its label as a heading, then the blocks of the panels the relevance filter keeps, in folder order |
| Export.AppendTabs | metabase_extract.py:189-247 | the tab loop adds one section per entry that is a folder, in the order given, and nothing for the other entries |
| Export.AppendConclusion | metabase_extract.py:258-266 | the heading `Conclusión` and the stripped conclusion when the reply is non-empty, else the fixed notice |
| Export.BuildReport | metabase_extract.py:149-247 | one municipio's document: title, preamble, footer logo only when a logo path is given and exists, then a section per sub-folder in sorted order |
| Export.ExportToDocx | metabase_extract.py:140-272 | the export loop and what follows it produce what `ExportAsWritten` describes |
| Export.PanelsBlocksAt | metabase_extract.py:210-247 | the j-th selected panel takes blocks 3j to 3j+2: its caption, its image, and its description |
| Export.ImagesOfPanels | metabase_extract.py:210-224 | the images shown are the selected files, in selection order |
| Export.SectionShowsExactlyRelevantPanels | metabase_extract.py:202-224 | a section shows exactly the `.png` files of its folder with a positive verdict, in folder order |
| Export.PanelWithoutDescription | metabase_extract.py:239-247 | a panel with a missing or empty description still appears, followed by `(Fallo la descripción)` |
| Export.ConclusionHeadingIffConclusion | metabase_extract.py:257-266 | the report has a first-level heading exactly when the conclusion is non-empty, and that heading is `Conclusión`; otherwise the report ends with the fixed notice |
| Export.LastFolderDocNoneIff | metabase_extract.py:144-149 | after the loop no document is bound exactly when no listed entry is a folder |
| Export.LastFolderDocIsLastFolder | metabase_extract.py:144-149 | after the loop the document is the report of the last folder listed |
| Export.ExportAsWrittenOutcome | metabase_extract.py:144-272 | the export fails exactly when no entry is a folder; otherwise it saves a single file, named after the last entry listed, holding the last folder's report and the conclusion |
| Export.ExportAfterDocsFolderSaves | metabase_extract.py:141-147 | once `docs` is listed as a folder, the export always saves a file |
| Export.OnlyLastMunicipioIsSaved | metabase_extract.py:250-272 | with `teulada` and `calpe` listed, only `calpe.docx` is saved |
| Export.DocsFolderIsReported | metabase_extract.py:141-147 | with `docs` listed after `teulada`, the one file saved is `docs.docx`, a report on the `docs` folder |
| Export.ExportEachSavesEveryMunicipio | metabase_extract.py:144-272 | corrected export: every municipio folder has its report saved with its own conclusion, and every saved report is a municipio folder's, never `docs` or `pdf` |
| Export.ExportEachToDocx | metabase_extract.py:144-272 | corrected export loop: saves what `ExportEach` describes |
| Export.ExportEachSkipsDocsFolder | metabase_extract.py:141-147 | corrected export on the same listing saves `teulada.docx` and nothing for `docs` |

## Left out

- Selenium (login, navigation, waits, sleeps, scrolling, `card.screenshot`): a card is reduced to its selector texts and a `captured` flag.
- The capture exception handler: a failure while scrolling, waiting or taking the screenshot is that flag, and a failed title lookup is a selector missing from the card's texts.
- `capture_dashboard`'s early return on a page with no cards: with no cards the loop writes nothing.
- The Gemini client and opening and closing images with PIL: a call is reduced to its outcome (`Reply.Call`), and the replies to maps.
- The prompts are not modelled, since they only shape what the model replies.
- python-docx layout (fonts, sizes, alignment, footer table, `doc.save`): a document is its sequence of blocks and its footer logo.
- `shutil.copy` into `seleccionadas`, `os.makedirs` and paths: listings are given as sequences.
- `select_relevant_images` returns the entry names rather than joined paths, since `export_to_docx` takes the base name back at once.
- The listing of `os.listdir` is taken in the order given, since Python does not fix it.
- `docx_to_pdf`, `os.startfile`, `run` and `main.py`: external processes, orchestration and configuration.
- `Lower`, `Capitalize` and `Title`: one character maps to one character, so Python's multi-character mappings are not modelled: `ß` upper-cases to `SS`, and `İ` lower-cases to two characters. `IsRelevant` and `SafeName` lower-case, so they share this limit. The `Latin` alphabet keeps `ß`, `ÿ` and `µ` unchanged when upper-casing, since their upper forms lie outside Latin-1.
- PyStr.LowerOfTitle, PyStr.TitleIdempotent, PyStr.TitleKeepsSpaces, PyStr.LowerOfCapitalize and PyStr.CapitalizeIdempotent are proved for alphabets that satisfy `WellFormed`, and `Latin` does. Python's full tables break the law that lowering after upper-casing is lowering: `µ` upper-cases to `Μ` (U+039C), which lower-cases to `μ` (U+03BC). Cased characters outside Latin-1 are not in `Latin`.
- The conclusion reply: the code asks for one conclusion after the loop, so the as-written model takes one reply; the corrected export takes one reply per municipio.

## Findings

| source | as written | input that shows it | evidently intended | confidence | as-written member | corrected member |
|---|---|---|---|---|---|---|
| metabase_extract.py:250-272 | the conclusion and the save sit after the `for municipio` loop, so only the document of the last folder listed is saved, under the name of the last entry listed | output folder listing `docs`, `teulada`, `calpe`: only `calpe.docx` is written, and the reports of `docs` and `teulada` are built and dropped | one report per municipio, each with a conclusion and saved under its own name | high (not executed) | Export.OnlyLastMunicipioIsSaved | Export.ExportEachSavesEveryMunicipio |
| metabase_extract.py:141-147 | the `docs` folder is created inside the output folder before the loop, and the loop takes every folder for a municipio | output folder listing `teulada`, `docs`: the one file written is `docs.docx`, a report titled "Informe de Docs" with no section | `docs` skipped, as it holds the reports and not captures; `pdf`, which `docx_to_pdf` creates in the output folder (lines 276-277), is skipped too, since from the second run on it is listed like `docs` | high (not executed) | Export.DocsFolderIsReported | Export.ExportEachSkipsDocsFolder |
