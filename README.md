# Contpal document ingestion, modelled in Dafny

Contpal is a Django application that collects companies' annual reports. It
tells which company and which year each report is about, and it counts the
meaningful Spanish words in the reports. The counts are kept per year so that
the admin can list the most frequent words. This project models the logic of
that ingestion and proves what it guarantees:

- **The word-frequency analyser** (`count_frequent_words`, `analyser.dfy`).
  - It reads `.docx` and `.txt` documents; any other extension raises `ValueError`.
  - It lowercases the text, removes punctuation and standalone numbers, splits
    on whitespace and drops stopwords and non-alphabetic tokens.
  - It counts the remaining words across all documents and ranks them like
    `Counter.most_common`: non-increasing count, ties in first-seen order.
  - The generic stable descending sort behind that ranking is in
    `ranking.dfy`. It is shared with `top_palabras` and with the admin count
    listing.
- **The year-scoped accumulator** (`guardar_conteo_en_bd`, `store.dfy`). For
  each (word, count) it gets or creates the word, then either adds the count
  to the first count row of the report's year for that word or creates a row
  for the report. The tables are the `Database` class, one `seq` field per
  table.
- **The seed imports** `insertar_provincias` and `insertar_empresas`
  (`store.dfy`), which insert only what is missing. Spreadsheet rows are
  given as a sequence.
- **Identification rules** (`identify.dfy`):
  - the year regex `\b(20\d{2}|19\d{2})\b`;
  - the two-pass fuzzy company scan of the ZIP import;
  - the substring company scan of the admin upload;
  - the "Desconocido" sentinel company.
- **PDF page assembly** of `pdf_to_docx` (`extract.dfy`): each page gives a
  `[Página n]` header and its text, or, for a page without text, a
  `[Página n - OCR]` header and the text of each OCR image.
- **Record rules** (`report.dfy`):
  - `Reporte.save` name derivation;
  - `top_palabras` and its `"<word> (<count>)"` entries;
  - the admin listing of count rows filtered by year and ordered by count.
- **The two ingestion paths** (`ingest.dfy`):
  - `procesar_zip_reportes`: PDF, Word and text entries of a ZIP file, fuzzy
    company match, no word counting.
  - `ZipArchivoAdmin.save_model`: Word and text entries, substring company
    match. Each report it saves fires the `post_save` signal `procesar_reporte`,
    which counts the stored file's words and accumulates them.
- **Supporting modules.** `text.dfy` holds Python's string operations
  (`lower`, `strip`, `split`, `join`, base names, decimal numerals).
  `utf8.dfy` holds UTF-8 decoding, both strict and with invalid bytes
  ignored, and universal-newline translation. `base.dfy` holds `Option` and
  `Result`.

Inputs that come from libraries are parameters of the model:

- The similarity test `difflib.SequenceMatcher(...).ratio() >= 0.8` is the
  parameter `similar`.
- The NLTK Spanish stopword list is the parameter `stop`.
- A ZIP entry is given as its name, its bytes, the pages a PDF reader and OCR
  would produce (`None` when conversion fails), and the paragraphs a Word
  parser would produce (`None` when parsing fails).

## Model

| member | source | states |
|---|---|---|
| Analyser.StripPunctuationSpec | Contpal/Palabras/utils.py:37 | a word or whitespace character is kept, any other is dropped, and a text without punctuation is unchanged |
| Analyser.StripPunctuationAppend | Contpal/Palabras/utils.py:37 | stripping works character by character: it distributes over concatenation |
| Analyser.DropNumbersTokens | Contpal/Palabras/utils.py:40 | on text of word characters and whitespace, removing standalone digit runs deletes exactly the all-digit tokens and keeps every other token, in order |
| Analyser.NormalizeTokens | Contpal/Palabras/utils.py:36-46 | the tokens of the normalised text are those of the lowercased, punctuation-free text without the all-digit ones |
| Analyser.MeaningfulWordsSpec | Palabras/utils.py:36-50 | a word is counted iff it is a whitespace token of the lowercased, punctuation-free, number-free text, is not a stopword and is alphabetic; every counted word is lowercase and never made only of digits; each kept word is counted as often as it occurs among the tokens |
| Analyser.MeaningfulWordsCount | Palabras/utils.py:36-50 | a kept word occurs in the counted words exactly as often as among the tokens, a dropped one never |
| Analyser.KeepMeaningfulCount | Palabras/utils.py:48-49 | the stopword and alphabetic filter keeps every occurrence of a kept word and none of a dropped one |
| Analyser.AllWordsCountable | Contpal/Palabras/utils.py:35-49 | every word counted from any of the documents is lowercase, alphabetic, not a stopword |
| Analyser.SpacedText | Palabras/utils.py:24-27 | the text built from a Word document's paragraphs (each followed by a space) splits into exactly the tokens of the paragraphs, in order |
| Analyser.SplitSpaced | Contpal/Palabras/utils.py:23-26 | splitting the paragraph text gives the concatenation of each paragraph's tokens |
| Analyser.UnsupportedAborts | Contpal/Palabras/utils.py:19-33 | a document whose lowercased path ends neither in .docx nor .txt makes the whole analysis fail |
| Analyser.FailurePersists | Palabras/utils.py:18-34 | once one document fails to be read, no later document changes the outcome |
| Analyser.TallyCounts | Palabras/utils.py:52-53 | the counter after all updates has one entry per distinct word with its exact number of occurrences, in first-seen order, counts summing to the number of words |
| Analyser.MostCommonCorrect | Palabras/utils.py:52-56 | the ranked counts list each counted word once with its occurrence count, by non-increasing count, ties in first-seen order, summing to the number of counted words |
| Analyser.FrequentWordsSpec | Contpal/Palabras/utils.py:12-57 | on success, the result is the most-common ranking of the counted words of all documents together, and every key is lowercase, alphabetic and not a stopword |
| Analyser.FrequentWordsOfOne | Contpal/Palabras/utils.py:17-33 | analysing one document fails iff reading it fails, with the same exception |
| Analyser.CountFrequentWords | Palabras/utils.py:13-58 | the document loop with its in-place counter returns exactly the specified result, including the first reading error |
| Analyser.ReadDocument | Palabras/utils.py:17-34 | reading one document gives the specified text: the paragraphs each followed by a space, the strictly decoded file, or the reading error |
| Analyser.UpdateCounter | Palabras/utils.py:52-53 | the in-place counter update leaves the counter fed with the old words followed by the new ones |
| Ranking.SortDescPermutes | Palabras/utils.py:56 | ranking by count neither loses nor adds entries (same multiset) |
| Ranking.SortDescOrdered | Contpal/Palabras/admin.py:38 | ordering by descending count gives a non-increasing sequence |
| Ranking.SortDescStable | Palabras/utils.py:56 | entries with equal counts keep their original relative order |
| Ranking.SortDescKeepsSum | Contpal/Palabras/utils.py:55 | ranking keeps the sum of the counts |
| Store.YearWordUniqueIsStronger | Palabras/models.py:55-57 | at most one row per (year, word) implies the model's at-most-one row per (report, word) |
| Store.AddCountToExisting | Palabras/utils.py:70-80 | when a row of the report's year exists for the word, the first such row grows by exactly n, every other row is unchanged and no row is added |
| Store.AddCountCreates | Palabras/utils.py:81-87 | when no row of the report's year exists for the word, exactly one row (this report, word, n) is appended |
| Store.AddCountFrame | Contpal/Palabras/utils.py:69-86 | rows for any other (year, word) pair are unchanged and none is removed |
| Store.AddCountKeepsYearWordUnique | Palabras/utils.py:66-87 | one accumulation keeps at most one row per (year, word) |
| Store.AccumulateKeepsUnique | Contpal/Palabras/utils.py:60-86 | accumulating a whole word listing keeps at most one row per (year, word) and per (report, word) |
| Store.AccumulateTotal | Palabras/utils.py:66-87 | for every (year, word), the total of the rows grows by the listing's count for that word when the year is the report's, and by nothing otherwise |
| Store.AccumulateTwice | Contpal/Palabras/utils.py:60-86 | accumulating the same listing twice adds twice its count to the year's totals |
| Store.AccumulateNotIdempotent | Contpal/Palabras/utils.py:75-79 | a listing with a positive count changes the table when it is accumulated a second time |
| Store.AccumulateRefs | Contpal/Palabras/models.py:51-57 | after accumulating, every count row references an existing report |
| Store.Database.SaveCounts | Contpal/Palabras/utils.py:60-86 | the count table becomes the accumulation of the listing, words gain exactly the missing keys, other tables are unchanged and the table constraints still hold |
| Store.Database.AddToCount | Palabras/utils.py:70-87 | one entry's update is the specified accumulation step and keeps the constraints |
| Store.Database.GetOrCreateWord | Palabras/utils.py:68 | the word is present afterwards at the returned id, added only when it was missing, and the constraints still hold |
| Store.Database.AddReport | Contpal/Palabras/models.py:31 | appends one report row at the next id and keeps the constraints when its company exists |
| Store.AddMissingSpec | Contpal/Palabras/utils.py:94-98 | check-then-insert keeps existing names, makes every row's name present, and adds only names that were missing, each once |
| Store.AddMissingDistinct | Palabras/models.py:45 | a column of unique names stays unique |
| Store.Database.InsertProvinces | Contpal/Palabras/utils.py:89-100 | the provinces become the old ones plus each missing row name once, other tables unchanged, constraints kept |
| Store.ProvinceGetOrCreate | Contpal/Palabras/utils.py:114 | get-or-create fails iff two provinces share the name; otherwise it returns an id holding the name and appends only a missing name |
| Store.Database.GetOrCreateProvince | Palabras/utils.py:114 | the method returns what the get-or-create function specifies and keeps the constraints |
| Store.SeedCompanyRowSpec | Contpal/Palabras/utils.py:108-124 | a company is created exactly when neither its name nor its RUC is taken, with the row's province; the province is present either way |
| Store.SeedCompanyRowFails | Contpal/Palabras/utils.py:114 | one row fails exactly when the province lookup finds two provinces with that name |
| Store.SeedCompanyRowKeeps | Contpal/Palabras/models.py:12-14 | inserting keeps RUCs unique and province references valid |
| Store.SeedCompaniesKeeps | Contpal/Palabras/models.py:11-14 | the whole import keeps RUCs unique and province references valid |
| Store.SeedCompaniesCovers | Contpal/Palabras/utils.py:104-126 | after a complete import every row's province exists and a company with its name or its RUC exists |
| Store.SeedStopsAfterFailure | Contpal/Palabras/utils.py:108-114 | after a failing row the import's result no longer changes |
| Store.Database.InsertCompanies | Contpal/Palabras/utils.py:104-126 | the tables after the row loop are the specified import result, it reports whether every row was processed, and RUCs stay unique with valid province references |
| Store.Database.InsertCompanyRow | Contpal/Palabras/utils.py:108-124 | one row writes exactly the specified catalog step, and nothing when its province lookup raises; the constraints still hold |
| Records.NameOnSaveSpec | Contpal/Palabras/models.py:26-31 | a non-empty name is never overwritten; an empty one becomes "SinArchivo" without a file, or the part of the file name after its last '/' |
| Records.NameOnSaveIdempotent | Palabras/models.py:27-32 | saving a second time keeps the name the first save set |
| Records.Reporte.Save | Palabras/models.py:27-32 | on a report not yet stored, fills in the empty name, inserts exactly one report row with the object's fields, and keeps the constraints |
| Records.FilterSpec | Contpal/Palabras/admin.py:36-37 | a filter keeps exactly the rows meeting its condition, each as often as it occurs |
| Records.CountListingSpec | Contpal/Palabras/admin.py:33-38 | the listing holds exactly the rows whose report has the requested year (all rows, each once, without a year) by non-increasing count |
| Records.TopRowsSpec | Palabras/models.py:37-38 | top rows are min(k, number of report rows) rows of this report by non-increasing count, and no omitted row of the report has a larger count than a listed one; no row is listed more often than it occurs |
| Records.TopRowsFromRows | Palabras/models.py:37-38 | the listed rows are a sub-multiset of the report's rows |
| Records.ListedTopWordsSpec | Contpal/Palabras/models.py:36-38 | the admin column, `top_palabras()` with its default of 5, lists the five largest counts, or all when fewer, and is empty only for a report without counts |
| Records.TopWordsEmpty | Contpal/Palabras/models.py:36-38 | the summary is empty iff no row is listed, so empty for a report without counts |
| Records.ParseEntryRoundTrip | Palabras/models.py:39 | each entry "<word> (<count>)" reads back as its word and its count |
| Identify.DetectYearSpec | Palabras/utils.py:168-169 | the year is 0 iff the text has no standalone 19dd/20dd number; otherwise it is the leftmost one's value, between 1900 and 2099 |
| Identify.YearNeedsBoundaries | Contpal/Palabras/admin.py:101-102 | a number with a letter, digit or underscore right before or after it never starts a detected year |
| Identify.YearBoundaryExamples | Contpal/Palabras/admin.py:101-102 | "a2021 1999" yields 1999 and "20215" yields 0 |
| Identify.NoWindowsWhenNameLonger | Palabras/utils.py:183 | a name with more tokens than the text has no window to match |
| Identify.OneWordWindowsAreTokens | Palabras/utils.py:177-188 | for a one-word name the window pass matches iff the token pass does |
| Identify.MatchesFuzzy | Palabras/utils.py:177-188 | the two loops find a match iff a single token or a window as wide as the name is similar to the name |
| Identify.ResolveFuzzySpec | Palabras/utils.py:172-190 | the chosen company is the first non-sentinel one recognised in the lowercased text, and one is chosen whenever any is recognised; with none recognised, the sentinel or nothing |
| Identify.ResolveCompanyFuzzy | Palabras/utils.py:172-190 | the catalog loop with its break returns the specified choice |
| Identify.AsWrittenStopsEarly | Palabras/utils.py:189-190 | a sentinel spelled "desconocido" makes the scan as written stop after the first real company and keep the sentinel |
| Identify.AsWrittenAgreesWithExactSentinel | Palabras/utils.py:172-190 | when the sentinel is missing or spelled exactly "Desconocido", the scan as written gives the intended result |
| Identify.ResolveBySubstringSpec | Contpal/Palabras/admin.py:105-109 | the chosen company is the first non-sentinel one whose lowercased name occurs in the lowercased text, and one is chosen whenever any occurs; otherwise the sentinel or nothing |
| Identify.ResolveCompanyBySubstring | Contpal/Palabras/admin.py:105-109 | the catalog loop with its break returns the specified choice |
| Extract.PageSectionsSpec | Palabras/utils.py:210-220 | a page with text gives one "[Página n]" section with the stripped text and ignores OCR; an empty page gives one "[Página n - OCR]" section per image with its stripped OCR text |
| Extract.HeadersDistinct | Palabras/utils.py:212-219 | headers of different pages differ, and a text header is never an OCR header |
| Extract.PageSectionsRead | Palabras/utils.py:211-219 | each section's header reads back as its page number and whether it came from OCR |
| Extract.SectionsBelong | Palabras/utils.py:208-220 | every section of the document is a section of one of its pages, numbered from 1 |
| Extract.SectionsOrdered | Palabras/utils.py:209 | sections appear in page order |
| Extract.TextPagesAppear | Palabras/utils.py:210-213 | the text of every page that has text appears under that page's header |
| Extract.ParagraphsSpec | Palabras/utils.py:212-220 | paragraph 2i is the header of section i and paragraph 2i+1 its text |
| Extract.AssemblePdf | Palabras/utils.py:206-220 | the page loop appends exactly the specified paragraphs |
| Ingest.StoredNameSpec | Palabras/utils.py:194 | the stored file is under "reportes/" with the entry's base name, and the report's derived name is that base name |
| Ingest.ExtensionsExclusive | Palabras/utils.py:136 | a name cannot end in two of .pdf, .docx, .txt |
| Ingest.ZipEntryTextSpec | Palabras/utils.py:136-165 | an entry is read only when its name ends, case-sensitively, in .pdf, .docx or .txt; a PDF is skipped iff conversion fails, a Word file iff parsing fails; a text file is always read |
| Ingest.ZipReportsCount | Palabras/utils.py:135-195 | the import creates exactly one report per surviving entry |
| Ingest.ZipReportsSpec | Palabras/utils.py:168-195 | each created report comes from an accepted entry, is named after its base name, has year 0 or 1900..2099, and a catalog company (none only without a sentinel) |
| Ingest.ZipReportsComplete | Palabras/utils.py:135-195 | every accepted, readable entry has its report among those created, with its base name, stored file, resolved company and detected year |
| Ingest.ProcessZip | Palabras/utils.py:129-195 | the entry loop appends exactly the specified reports, changes no other table and keeps the constraints |
| Ingest.ReadZipEntry | Palabras/utils.py:136-165 | reading one entry gives the specified text, or nothing for an entry that is filtered out or fails to convert or parse |
| Ingest.StoredCountFails | Contpal/Palabras/signals.py:9-19 | counting a stored accepted entry fails iff it is a text file that is not valid UTF-8, with NotUtf8 of the stored path |
| Ingest.AdminStepSpec | Contpal/Palabras/admin.py:86-117 | a successful step adds one report with a non-negative year exactly when the entry is accepted, keeping earlier reports |
| Ingest.AdminRunSpec | Contpal/Palabras/admin.py:82-117 | a successful upload adds one report per accepted entry, after the existing ones, each with a non-negative year |
| Ingest.AdminRunRows | Contpal/Palabras/admin.py:86-117 | a successful upload leaves the old reports followed by exactly one row per accepted entry, in entry order, each with its stored file, base name, substring-matched company and detected year |
| Ingest.AdminRunComplete | Contpal/Palabras/admin.py:86-117 | after a successful upload every accepted entry was readable and its report, with its base name, stored file, company and year, is saved |
| Ingest.AdminUnreadableStops | Contpal/Palabras/admin.py:93-96 | an accepted Word entry that cannot be parsed stops the upload with that error |
| Ingest.AdminStopsHere | Contpal/Palabras/admin.py:86-117 | once a prefix of the entries fails, the whole upload fails with that error |
| Ingest.OnReportCreated | Contpal/Palabras/signals.py:9-19 | the signal succeeds iff the word count does; on success the tables are the accumulation of the counts for the new report; the constraints hold either way |
| Ingest.AdminUpload | Contpal/Palabras/admin.py:82-117 | the upload loop succeeds iff the specified run does, fails with the same error, on success leaves exactly the run's tables, and keeps the constraints either way |
| Ingest.UploadEntry | Contpal/Palabras/admin.py:87-117 | one entry either is filtered out, or fails with the specified error, or leaves exactly the specified tables; the constraints hold either way |
| Ingest.ReadAdminEntry | Contpal/Palabras/admin.py:88-98 | the text of an accepted entry is its paragraphs joined with newlines or its bytes decoded ignoring errors; nothing only for an unparsable Word file |
| Ingest.SaveAdminRow | Contpal/Palabras/admin.py:100-117 | saving the entry's report and running the signal leave exactly the specified tables, or fail with the counting error; the constraints hold either way |
| Utf8.StrictAgreesWithIgnoring | Palabras/utils.py:164 | on valid UTF-8, decoding that ignores errors gives the same text as strict decoding |
| Utf8.StrayContinuationDropped | Contpal/Palabras/admin.py:98 | an invalid byte is dropped when errors are ignored and makes strict decoding fail |
| Utf8.DecodeEncodeRoundTrip | Contpal/Palabras/utils.py:30-31 | decoding the UTF-8 encoding of any text gives that text back, both strictly and leniently |
| Utf8.TranslateNewlinesKeeps | Palabras/utils.py:164-165 | text without carriage returns is not changed by newline translation |
| Text.StripIdempotent | Palabras/utils.py:210 | stripping twice is stripping once |
| Text.SplitJoinRoundTrip | Palabras/utils.py:184 | splitting tokens joined with spaces gives the tokens back |
| Text.BasenameSpec | Palabras/models.py:29-30 | the base name has no '/', is a suffix of the name, is the whole name when it has no '/', and otherwise follows its last '/' |
| Text.BasenameKeepsSuffix | Palabras/utils.py:142 | a suffix without '/' of a file name is also a suffix of its base name |
| Text.LowerStrIsLowerCase | Palabras/utils.py:37 | the lowercased text is lowercase, and lowering is idempotent |
| Text.ParseNatToString | Contpal/Palabras/models.py:38 | the decimal rendering of a count reads back as the count |

## Left out

- The Django ORM, migrations and `transaction.atomic` are left out. The tables are sequences in one `Database` object. A unique constraint is the `Valid` invariant, which every writing method of the database and of the ingestion requires and keeps, not a check that raises.
- Ingest.AdminUpload: after a failure, the tables are only said to keep their constraints, because database rollback and partial commits are not modelled.
- ZIP reading, temporary directories and file writes are not modelled, nor storing the uploaded file (`reporte.archivo.save`) or the converted document (`doc.save`). Entries are given as values, and the generated `.docx` is read back as the paragraphs the page loop appended.
- The storage's file-name sanitising, its renaming of names that collide, and `MEDIA_ROOT` are left out. The model keeps `reportes/<base name>`, and only its suffix and base name matter.
- PDF text extraction (fitz), page rendering (pdf2image), OCR (pytesseract) and Word parsing (python-docx) are foreign code. Their results are inputs, and a failure is `None`.
- `difflib.SequenceMatcher.ratio` is floating-point foreign code. It is the uninterpreted predicate `similar`.
- The NLTK stopword list and its download (a network call) are left out. The stopwords are the parameter `stop`.
- Python's Unicode character classes (`lower`, `isalpha`, `\w`, `\d`, `\s`) are restricted to ASCII plus the Spanish accented letters, ñ and ü; whitespace is every ASCII whitespace character, U+001C to U+001F included, and the non-ASCII spaces such as U+00A0 are not whitespace in the model.
- `pandas.read_excel` is left out. Spreadsheet rows are a sequence of (name, RUC, province) values.
- Palabras/admin.py is UI (rendering, chart weights), and so are `Palabras/forms.py` and `Contpal/Palabras/apps.py`. None of them is part of this model.
- `print` logging and the clock-dependent default year of `Palabras/models.py:25` are left out.
- Concurrent callers racing on the read-then-write accumulation are not modelled.
- `max_length` of the character columns is not modelled.
- Store.Database.AddReport: the non-negative year of the `Contpal` `PositiveIntegerField` is proved about what the admin writes (`Ingest.AdminRunSpec`), not enforced by the table. The `Palabras` app's `IntegerField` has no such bound.
- Records.Reporte.Save: only the first save of an object, an insert, is modelled; a later save of the same object, which Django turns into an update of its row, is not.
- The second `reporte.save()` after `reporte.archivo.save(...)` only rewrites the same row, so it is not modelled. `Records.NameOnSaveIdempotent` shows that it keeps the name.
- The `post_save` signal fires on the report's first save, inside `archivo.save`. In the admin model, counting follows the save directly.
- The year filter's parameter is taken as an already parsed integer, so a non-numeric `?anio=` value, which Django rejects, is not modelled.
- Records.TopRows: a negative slice bound, which Django rejects for querysets, is excluded by taking `k` as a natural number.
- The order of rows with equal counts in `order_by('-cantidad')` is unspecified in the source. The admin changelist may add its own tie-break. The model's stable sort keeps creation order, and no contract of `Records.CountListingSpec` or `Records.TopRowsSpec` depends on it. `filter().first()` is taken in primary-key order, which is creation order.
- Name and RUC comparisons in the seed imports are exact, as with a case-sensitive database collation.
- Ingest.ProcessZip: the ZIP import is modelled with the corrected company scan `Identify.ResolveFuzzy`. The scan as written is `Identify.ResolveFuzzyAsWritten` (see Findings). The two agree whenever the sentinel is spelled exactly "Desconocido" (`Identify.AsWrittenAgreesWithExactSentinel`).

## Findings

| source | as written | input that shows it | evidently intended | confidence | as-written member | corrected member |
|---|---|---|---|---|---|---|
| Palabras/utils.py:189 | the scan stops once `empresa_asignada.nombre != 'Desconocido'`, compared case-sensitively, although the sentinel was fetched with `nombre__iexact='Desconocido'`; a sentinel spelled differently makes the scan stop after the first real company | catalog [desconocido, acme, beta], text "beta", a similarity test that recognises "beta" and not "acme" | the first company recognised in catalog order ("beta") | not executed | Identify.AsWrittenStopsEarly | Identify.ResolveFuzzySpec |
