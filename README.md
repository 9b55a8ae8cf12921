# Automated literature review: a verified model of the agents

The system is a chain of agents that writes a literature review on a topic.

- The **retrieval agent** searches arXiv, Semantic Scholar and CORE, downloads open PDFs into `downloads/` and records each paper in the `papers1` table.
- The **summarisation agent** asks a Gemini model for a structured summary of each paper's full text. It stores the summary in the paper's `abstract` column.
- The **gap-identification agent** turns the stored literature survey into a research-gap analysis, and that analysis into a future research proposal. Both go into the `analyses` table.
- The **verification agent** checks the gap analysis and the proposal against all stored summaries, and saves the two verification reports.
- The **report agent** lays the five analyses out as a PDF under `reports/`.

This project models those five agents in Dafny and proves what their code promises. The modules follow the program's structure:

- `Text` and `Values`: Python string operations (`strip`, `split`, `join`, `replace`, `lower`, `str(int)`) and the `Option`/`Result`/JSON-field values the code handles.
- `Filenames`: `safe_to_int` and `sanitize_filename`.
- `Download`: `download_pdf`, with its collision rename, three attempts and 5 s/10 s back-off.
- `PaperRecords`: `save_paper_to_db`.
- `Harvest`: the shared "one search result → download → record → save" step and the loop around a batch of results.
- `Arxiv`, `SemanticScholar`, `CoreCatalog`: the three adapters.
- `Retrieval`: `run_retrieval`.
- `ModelRetry`: the three copies of `call_gemini_api`, which are one retry loop with per-agent messages.
- `Summarization`: `clean_text` and `run_summarization`.
- `Analyses`: the `analyses` table, one row per analysis type.
- `Verification`: `summaries_text` and `run_verification`.
- `GapIdentification`: `run_gap_identification_agent`.
- `ReportItems`, `MarkdownTable`, `StructuredText`, `ReportGeneration`: the report's flowables, `parse_markdown_table`, `parse_structured_text`, `generate_pdf_report` and `run_report_generation`.

Code that works step by step is modelled as a `method` whose loop is proved against a specification function. This covers the download attempts, the adapters' loops, the model-call retries, the summarisation loop, the two gated runs, the table-row loop and the paragraph loop. The properties are proved as lemmas about those functions.

The outside world is passed in as parameters:
- the network (`net(k)` for download attempt `k`, the search answers);
- the clock and the random id drawn for a CORE work;
- the model's replies (`replies(k)` for call `k`).

Sleeps are returned as lists of waits, not slept. Database effects are values threaded through each run: the rows saved, the `abstract` map and the `analyses` table.

## Model

| member | source | states |
|---|---|---|
| Filenames.SafeToInt | Retrieval_agent.py:39-46 | `None` stays `None`. Text gives `None` exactly when it has no run of four digits; otherwise it gives the value of the leftmost run, in 0..9999. A number gives `LeadingDigitsValue` of it, the value of its first four characters. |
| Filenames.LeadingDigitsValue | Retrieval_agent.py:45 | `int(str(n)[:4])`: a non-negative number keeps its leading four digits, the number left once trailing digits are dropped until it is below 10000. A negative number keeps its sign and its leading three digits. The value lies in -999..9999. |
| Filenames.YearNumberKept | Retrieval_agent.py:45 | A year given as a number of at most four digits comes back unchanged. |
| Filenames.YearOfBareYear | Retrieval_agent.py:41-45 | Example of the text case: the text `2023` gives 2023. |
| Filenames.YearInsideText | Retrieval_agent.py:41-45 | Example of the text case: `Published in 2023 at ICML` gives 2023, the leftmost four-digit run. |
| Filenames.NoYearInText | Retrieval_agent.py:41-44 | Text without four digits in a row gives `None`. |
| Filenames.SanitizeFilename | Retrieval_agent.py:48-50 | The result has length min(\|name\|, 150). Each of `\ / * ? : " < > \|` becomes `_` and every other character is kept in place. |
| Filenames.SanitizeIdempotent | Retrieval_agent.py:48-50 | Sanitising twice is sanitising once. |
| Filenames.SanitizeKeepsSafeNames | Retrieval_agent.py:48-50 | A name of at most 150 safe characters is its own sanitised form. |
| Download.WithPdfSuffix | Retrieval_agent.py:57-58 | The result ends in `.pdf` (any case). It is the name itself when it already did, otherwise the name plus `.pdf`. |
| Download.SplitExt | Retrieval_agent.py:62 | `os.path.splitext`: the two parts concatenate to the path, and the extension is empty or a dot followed by no dot and no `/`. |
| Download.Classify | Retrieval_agent.py:74-96 | The verdict on one attempt: a transport failure or a 4xx/5xx status is retried; a content type containing `application/pdf`, or `application/octet-stream` under a `.pdf` name, is accepted; any other content type ends the download. `NotPdfStops` and `OctetStreamAccepted` state its cases. |
| Download.AttemptsFrom | Retrieval_agent.py:69-108 | The attempts from `attempt` on: an accepted attempt returns the target path, a rejected one returns nothing, a retried one waits `5·2^attempt` s before the next, and the third retried attempt gives up. `DownloadAttempts` and `DownloadSucceedsIff` state its outcome. |
| Download.PrepareTarget | Retrieval_agent.py:57-64 | The target path is the sanitised name under `downloads/`. It is renamed exactly when the sanitised path of the `.pdf` name already exists, and the new name is `<base>_<seconds><ext>`: the timestamp is spliced once, before the extension that `os.path.splitext` finds. |
| Download.DownloadPdf | Retrieval_agent.py:52-109 | The attempt loop computes the download that `DownloadSpec` describes. |
| Download.DownloadAttempts | Retrieval_agent.py:52-108 | Without a URL there is no request. With one there are one to three GETs, with waits of 5 s and then 10 s between them. |
| Download.DownloadSucceedsIff | Retrieval_agent.py:69-108 | A path comes back exactly when some attempt was accepted after only retried ones, and that path is the prepared target. |
| Download.ThreeFailuresGiveUp | Retrieval_agent.py:97-108 | Three transport failures give `None` after waiting 5 s and 10 s, and no fourth request is made. |
| Download.NotPdfStops | Retrieval_agent.py:76-96 | An answer that is neither a PDF nor an octet stream for a `.pdf` name ends the download at once, without a retry. |
| Download.DownloadStaysInDirectory | Retrieval_agent.py:60-64 | Every path returned lies directly in `downloads/`. Its name has at most 150 characters and none of the unsafe ones. |
| Download.FreshNameKept | Retrieval_agent.py:57-61 | A name whose sanitised path is free is used unchanged. |
| Download.LongNameOverwrites | Retrieval_agent.py:61-64 | When the stem already fills the 150 characters kept by sanitising, the timestamp is cut off. The renamed path is then the existing file. |
| Download.ShortNameAvoidsCollision | Retrieval_agent.py:60-64 | When the renamed name fits in 150 characters, the download goes to a path other than the one that collided. |
| Download.TargetKeepsPdfName | Retrieval_agent.py:57-64 | Renamed or not, a plain `.pdf` name keeps its `.pdf` ending; a renamed one is the name with `_<seconds>` inserted just before that ending. |
| Download.OctetStreamAccepted | Retrieval_agent.py:78-83 | For such a name, an `application/octet-stream` answer is accepted like a PDF. |
| PaperRecords.AuthorNames | Retrieval_agent.py:119 | The names of an author list, defined exactly when every element is a string. |
| PaperRecords.SavePaper | Retrieval_agent.py:111-136 | A row is written exactly when the abstract is present and a list of authors holds only names; otherwise the call raises `TypeError`. The row carries the title, URL, year, source name and file path. Its abstract is a prefix of the given one, equal to it up to 65530 characters and exactly 65530 characters long beyond that. Its authors column is the names joined with `", "` for a list and `NULL` otherwise. A missing title raises after the commit. |
| PaperRecords.EmptyAuthorsColumn | Retrieval_agent.py:119 | An empty author list is saved as the empty string, not as `NULL`. |
| PaperRecords.AuthorsColumnRoundTrip | Retrieval_agent.py:119 | The authors column splits back on `", "` into the names, provided no name contains `", "`. |
| Harvest.Attempt | Retrieval_agent.py:153-173 | A skipped result changes nothing, and a broken one raises without a download. An eligible one logs exactly one download, and counts exactly when that download returned a path and nothing raised. |
| Harvest.AttemptCandidate | Retrieval_agent.py:161-173 | The per-result step computes `Attempt`. |
| Harvest.HarvestBatch | Retrieval_agent.py:153-173 | The batch loop computes `RunBatch`. |
| Harvest.AttemptGrows | Retrieval_agent.py:161-173 | One result adds at most one download and one row. A counted paper has its row and its successful download. |
| Harvest.BatchAccounting | Retrieval_agent.py:153-173 | The count never passes the quota, and reaches it when the quota stops the loop. Downloads, files and rows only grow, and the new files are exactly the returned paths. Every counted paper has its own successful download and row. At most one successful download goes uncounted, and only when an exception ended the loop. |
| Harvest.SkippedEntryMakesNoCall | Retrieval_agent.py:207-208 | A passed-over result makes no download and saves no row. |
| Arxiv.BatchSize | Retrieval_agent.py:142 | `int(1.5 n)`: at least `n`, and within a rounding of one and a half times `n`. |
| Arxiv.RecordIdPart | Retrieval_agent.py:157 | The record part of the file name contains no `/`. |
| Arxiv.TitlePart | Retrieval_agent.py:158 | At most 50 characters, none of them unsafe. |
| Arxiv.ArxivFilename | Retrieval_agent.py:157-159 | `arXiv_<record part>_<title part>.pdf`, from the entry id and the stripped title. `ArxivFilenameShape` states its structure. |
| Arxiv.AuthorsOf | Retrieval_agent.py:166 | Succeeds exactly when every `<author>` has a `<name>`, and then keeps one item per author, in order. |
| Arxiv.ArxivDetails | Retrieval_agent.py:162-171 | The record exists exactly when the authors, the summary text and the `<published>` element are all there; otherwise the error is `AttributeError`. The record holds the stripped title, the id as URL, the stripped summary and `safe_to_int` of the date. |
| Arxiv.ArxivCandidate | Retrieval_agent.py:155-161 | An entry without id or title text raises `AttributeError`. Any other entry is downloaded from its `/pdf/` link under its arXiv file name. |
| Arxiv.RetrieveArxiv | Retrieval_agent.py:139-176 | The adapter computes `ArxivSpec`. |
| Arxiv.ArxivAccounting | Retrieval_agent.py:142-174 | The query asks for `int(1.5 n)` entries and at most `n` papers are processed. Each processed paper has its own download and row, and only the downloaded paths are added as files. |
| Arxiv.ArxivLinks | Retrieval_agent.py:155-157 | For an id with one `/abs/`, the PDF link is the same address under `/pdf/` plus `.pdf`. The record part is the rest of the id with `/` turned into `_`. |
| Arxiv.ArxivFilenameShape | Retrieval_agent.py:157-159 | The file name is `arXiv_`, a record part without `/`, `_`, at most 50 sanitised title characters, and `.pdf`. |
| Arxiv.MissingSummaryEscapes | Retrieval_agent.py:161-167 | An entry whose summary has no text is downloaded, but its record raises. This ends the adapter with the paper uncounted and no row. |
| SemanticScholar.KeptNames | Retrieval_agent.py:216-220 | Every kept name is non-empty, there are no more names than authors, and every truthy author with a non-empty name has its name among them. |
| SemanticScholar.KeptNamesAppend | Retrieval_agent.py:216-220 | One author gives its name exactly when it is truthy with a non-empty name, and nothing otherwise. The names of two lists are those of the first followed by those of the second, so names keep the authors' order and none is invented. |
| SemanticScholar.ScholarAuthors | Retrieval_agent.py:216-222 | The kept names, or `['Unknown Author']` when none is kept. A `null` list raises `TypeError`. |
| SemanticScholar.ScholarFilename | Retrieval_agent.py:211-212 | `SemanticScholar_`, the first 10 characters of the paper id, `_`, the first 50 characters of the sanitised title, `.pdf`. |
| SemanticScholar.ScholarDetails | Retrieval_agent.py:216-229 | The record of a downloaded paper holds its fields and the file path. It fails exactly for a `null` author list. |
| SemanticScholar.ScholarCandidate | Retrieval_agent.py:205-213 | A paper that is not open access with a PDF URL is passed over, and a `null` id or title raises. Any other paper is downloaded under its file name, with the defaults `unknown_id` and `NoTitle`. |
| SemanticScholar.RetrieveSemanticScholar | Retrieval_agent.py:179-248 | The `while` loop computes `ScholarSpec`. |
| SemanticScholar.PageStep | Retrieval_agent.py:188-246 | One pass of the loop body: a failed request moves on, counting a cool-down after a 429; a body that is not JSON moves on; an unreadable one breaks; an empty `data` breaks with no more results; otherwise the batch runs and an exception from it breaks. `StepKeepsOffsets` and `StepAccounting` state its effect. |
| SemanticScholar.StepKeepsOffsets | Retrieval_agent.py:188-246 | Handling one page never changes the requested offsets, and adds at most one cool-down. |
| SemanticScholar.StepAccounting | Retrieval_agent.py:188-246 | Handling one page keeps every paper found matched by its own download and row. A successful download goes uncounted only on a page that broke the loop. |
| SemanticScholar.ScholarOffsets | Retrieval_agent.py:184-246 | Requests go only to offsets 0, 10, …, 90, each at most once, with at most one cool-down per request. |
| SemanticScholar.ScholarAccounting | Retrieval_agent.py:187-231 | At most `n` papers are found across all pages, each with its own download and row. A successful download goes uncounted only when the loop broke on an exception. |
| SemanticScholar.RateLimitMovesOn | Retrieval_agent.py:233-246 | A rate-limited first page is followed by a request at offset 10, not at 0 again. |
| SemanticScholar.NullAbstractBreaks | Retrieval_agent.py:227-244 | A downloaded paper with a `null` abstract raises in the save, which breaks the loop with the paper uncounted. |
| CoreCatalog.CoreSourceUrl | Retrieval_agent.py:307 | The CORE page of the work when it has an id, else its DOI link or `""`. |
| CoreCatalog.CoreFilename | Retrieval_agent.py:298-299 | `CORE_<id>_<title part>.pdf`, with the first 50 characters of the sanitised title. `DrawnIdNamesFile` uses it for a work without an id. |
| CoreCatalog.CoreDetails | Retrieval_agent.py:303-317 | The record of a downloaded work: its title, its CORE page or DOI link, its author list as given, its abstract or `No Abstract Available`, its year through `safe_to_int`, the source `CORE` and the file path. `CoreRecordUrl` and `AuthorObjectsStop` state its consequences. |
| CoreCatalog.CoreCandidate | Retrieval_agent.py:290-301 | A work without a download link is passed over, and a `null` title raises. Any other work is downloaded from its link under `CORE_<id>_<title part>.pdf`. |
| CoreCatalog.RetrieveCore | Retrieval_agent.py:251-328 | The adapter computes `CoreSpec`. |
| CoreCatalog.CoreAccounting | Retrieval_agent.py:263-319 | The search asks for `3 n` works and at most `n` papers are processed, each with its own download and row. |
| CoreCatalog.CoreRecordUrl | Retrieval_agent.py:296-317 | A downloaded work is recorded under its CORE page when it has an id, else under its DOI link. |
| CoreCatalog.DrawnIdNamesFile | Retrieval_agent.py:297-299 | A work without an id is filed under the drawn six-digit number. |
| CoreCatalog.AuthorObjectsStop | Retrieval_agent.py:304-326 | Author objects cannot be joined, so such a downloaded work ends the adapter with the paper uncounted and no row. |
| CoreCatalog.NoLinkNoDownload | Retrieval_agent.py:291-294 | A work without a download link makes no request. |
| Retrieval.RunRetrieval | Retrieval_agent.py:331-366 | The run computes `RetrievalSpec`. |
| Retrieval.RetrievalAccounting | Retrieval_agent.py:343-356 | At most 50 + 25 + 25 papers are processed, each with its own download and row. The world only grows, and only by the downloaded files. |
| Retrieval.NothingWithoutSetup | Retrieval_agent.py:333-341 | When there is no connection, or creating `downloads/` raises, nothing is requested, downloaded or saved. A missing directory that can be created does not stop the run. |
| Retrieval.FailuresAreIsolated | Retrieval_agent.py:343-351 | An unreachable arXiv does not stop Semantic Scholar, which starts from the untouched world. |
| Retrieval.EscapesAreIsolated | Retrieval_agent.py:343-356 | However arXiv ends, an escaping exception included, Semantic Scholar runs on the world arXiv left and CORE on the world Semantic Scholar left. Downloads and rows saved before an exception are kept to the end of the run. |
| ModelRetry.CallGeminiApi | Verification_agent.py:69-101 | The retry loop computes `CallSpec`, the shared meaning of all three copies. |
| ModelRetry.Attempts | Verification_agent.py:82-101 | The retry loop from call `attempt` on: a rate-limited reply waits `delay` and doubles it, any other reply ends the loop, and five calls end it with the retries-exhausted failure. `CallShape`, `FailFast` and `RateLimitedFiveTimes` state its outcome. |
| ModelRetry.CallShape | Verification_agent.py:82-101 | A call makes at most 5 model calls. It waits 15·2^i seconds after call i, and only after a rate-limited call. A success returns the stripped text of the first reply that was not rate limited. |
| ModelRetry.MentionsCodeContains | Verification_agent.py:93 | The front-to-back scan for `429` succeeds exactly when `429` occurs in the exception text. |
| ModelRetry.NoProjectNoCall | Verification_agent.py:70-72 | With an empty project id the summarisation and verification copies fail at once, with no model call. |
| ModelRetry.FailFast | Verification_agent.py:87-99 | A blocked reply, or an error without `429`, ends the call at once with its own message and no further retry. |
| ModelRetry.RateLimitedFiveTimes | Verification_agent.py:82-101 | Five rate-limited replies give the "multiple retries" failure after waits of 15, 30, 60, 120 and 240 s. |
| ModelRetry.CopiesAgree | Gap_identification.py:71-89 | The three copies make the same calls, wait the same waits and succeed with the same text. They differ only in their failure messages and in the project check. |
| Summarization.AsciiOnly | Summarization_agent.py:66 | The result is all ASCII and no longer than the input. |
| Summarization.CleanText | Summarization_agent.py:63-68 | `clean_text`: `None` and `""` give `""`; otherwise runs of non-ASCII characters become one space, runs of white space become one space, and the ends are stripped. `CleanTextTidy`, `CleanTextIdempotent` and `NonAsciiRunOneSpace` state its properties. |
| Summarization.CleanTextTidy | Summarization_agent.py:63-68 | `clean_text` gives ASCII text no longer than its input. Its only white space is single spaces, with none at either end. |
| Summarization.CleanTextIdempotent | Summarization_agent.py:63-68 | Cleaning clean text changes nothing. |
| Summarization.NonAsciiRunOneSpace | Summarization_agent.py:66 | Each maximal run of non-ASCII characters becomes exactly one space. |
| Summarization.Reached | Summarization_agent.py:119-120 | The loop gets through the papers before the first one without a title. Slicing that missing title raises `TypeError`, which ends the run. |
| Summarization.RunSummarization | Summarization_agent.py:104-150 | The loop computes `SummarizationSpec`: the new `abstract` column and the texts sent to the model. |
| Summarization.SourceTextBounded | Summarization_agent.py:122 | The text sent for a paper is at most 1,000,000 characters of clean text. |
| Summarization.SummarizationRun | Summarization_agent.py:119-150 | One clean text is sent per paper reached, in order. An abstract changes only for a paper whose call succeeded. |
| Summarization.UpdatedOnlyOnSuccess | Summarization_agent.py:143-150 | Every stored abstract is either the old one or the text of a successful call for a paper with that id. No abstract is removed. |
| Summarization.LastSuccessWins | Summarization_agent.py:143-147 | The last successful call for an id decides its abstract. |
| Summarization.OthersUntouched | Summarization_agent.py:148-150 | A paper whose calls all failed keeps its abstract. |
| Summarization.NoProjectNoSummaries | Summarization_agent.py:143-150 | Without a project id no abstract changes. |
| Analyses.Latest | Verification_agent.py:37-43 | The content of the row for that analysis type, or `None` exactly when there is none. |
| Analyses.Saved | Verification_agent.py:53-67 | After saving, reading that type gives the new content and every other type reads as before. |
| Verification.RenderedAll | Verification_agent.py:118 | One rendering per summary, in query order. |
| Verification.Rendered | Verification_agent.py:118 | `### Paper ID <id> (<title>):\n<summary>`, with a missing title shown as `None`. |
| Verification.SummariesText | Verification_agent.py:118 | The renderings of the summaries, in query order, joined by blank lines. `SummariesTextAppend` and `SummariesTextSplits` state its shape. |
| Verification.RunVerification | Verification_agent.py:103-196 | The run computes `VerificationSpec`: the new `analyses` table and the checks asked of the model. |
| Verification.SummariesTextAppend | Verification_agent.py:118 | A further summary adds a blank line and its rendering at the end. |
| Verification.SummariesTextSplits | Verification_agent.py:118 | The context splits on blank lines back into `### Paper ID <id> (<title>):\n<summary>` per paper, in order, when every title and summary is one non-empty line. |
| Verification.NothingWithoutSummaries | Verification_agent.py:106-115 | Without a connection or any summary, nothing is asked and nothing is saved. |
| Verification.VerificationRun | Verification_agent.py:120-196 | Each stored non-empty analysis is checked once, gap first, and each check carries the joined summaries. Each report is saved exactly when its call succeeded, and no other row changes. |
| Verification.NoProjectNoReports | Verification_agent.py:153-196 | Without a project id no report is saved. |
| GapIdentification.RunGapIdentification | Gap_identification.py:92-152 | The run computes `GapSpec`. |
| GapIdentification.NoSurveyNoCalls | Gap_identification.py:97-105 | Without a connection or a non-empty survey, the model is never called and nothing is saved. |
| GapIdentification.GapFailureStops | Gap_identification.py:119-123 | A failed gap request saves nothing and asks for no proposal. |
| GapIdentification.GapSuccessFeedsProposal | Gap_identification.py:119-152 | After a successful gap request the gap analysis is saved and the proposal request carries it. The proposal is saved exactly when its call succeeds. |
| GapIdentification.ProposalOnlyAfterGap | Gap_identification.py:119-152 | Only the gap and proposal rows change. Any change needs the survey and a successful gap call. The proposal changes only after both calls succeeded. |
| GapIdentification.GapIgnoresProject | Gap_identification.py:61-89 | This copy never checks the project id, so the run does not depend on it. |
| ReportItems.RowOf | report_generation_agent.py:56-64 | One paragraph per cell, in order, in the given style. |
| MarkdownTable.DropTag | report_generation_agent.py:45 | A leading `markdown\n` is removed; any other text is unchanged. |
| MarkdownTable.IsSeparator | report_generation_agent.py:48 | The separator regex on a stripped line: after one optional leading and one optional trailing `\|`, at least two non-empty runs of `-` and `:` separated by single `\|`. `SeparatorDropped` shows the usual separator matches. |
| MarkdownTable.ValidLines | report_generation_agent.py:48 | The table lines, in order: no more lines than given. `ValidLinesExact` states which lines are kept. |
| MarkdownTable.Cells | report_generation_agent.py:55 | At least one cell: the line without its outer `\|`s, split on `\|`, each piece stripped. `CellsRoundTrip` shows it reads back the cells of a framed row. |
| MarkdownTable.ParseMarkdownTable | report_generation_agent.py:39-71 | The parser computes `ParsedTable`. |
| MarkdownTable.KeepRows | report_generation_agent.py:60-67 | The row loop computes `KeptRows`. |
| MarkdownTable.KeptRowsWidth | report_generation_agent.py:61-65 | Every kept row has exactly the header's width, all in the body style. |
| MarkdownTable.KeptRowsAppend | report_generation_agent.py:61-67 | A line gives its row exactly when it has the header's width. The rows of two blocks come in input order. |
| MarkdownTable.ValidLinesExact | report_generation_agent.py:48 | A line is a table line exactly when it is non-blank, has a `\|`, and is not a separator. |
| MarkdownTable.TableShape | report_generation_agent.py:40-71 | The result is `[[]]` exactly when there is no text or no table line. Otherwise it is a non-empty header row, then rows of the same width. |
| MarkdownTable.TagLineDropped | report_generation_agent.py:45-46 | The table is read the same with or without a leading `markdown` line. |
| MarkdownTable.CellsRoundTrip | report_generation_agent.py:55-62 | `\|c1\|…\|ck\|` reads back as its cells when each is non-empty, without `\|` and without surrounding white space. |
| MarkdownTable.SeparatorDropped | report_generation_agent.py:48 | The usual `\|---\|…\|---\|` separator is not a table line. |
| StructuredText.CloseAt | report_generation_agent.py:82 | The lazy `(.*?)\*\*` ends at the first `**` with no newline before it. When there is no end, every later `**` has a newline before it. |
| StructuredText.Embolden | report_generation_agent.py:82 | The left-to-right substitution of `\*\*(.*?)\*\*` by `<b>\1</b>`: a `**` with a closing `**` found by `CloseAt` is replaced with its text between the tags; elsewhere one character is copied. `PlainTextUnchanged` and `BoldSpan` state its effect. |
| StructuredText.Paragraphs | report_generation_agent.py:84 | The pieces between matches of `\n\s*\n+`; there is at least one. `ParagraphsOfJoin` shows it inverts a blank-line join. |
| StructuredText.Classify | report_generation_agent.py:90-104 | Each piece becomes a paragraph. |
| StructuredText.ParseStructuredText | report_generation_agent.py:74-106 | The parser computes `Story`. |
| StructuredText.BuildStory | report_generation_agent.py:86-104 | The paragraph loop computes `StoryOf`. |
| StructuredText.StoryShape | report_generation_agent.py:86-104 | Two items per non-blank piece: a paragraph at each even position and a spacer at each odd one. |
| StructuredText.StoryAppend | report_generation_agent.py:86-104 | The story of two blocks of pieces is the first story followed by the second. |
| StructuredText.StoryOfCleanPieces | report_generation_agent.py:86-104 | Clean pieces each give their paragraph and a spacer; none is dropped or reordered. |
| StructuredText.NoTextNoStory | report_generation_agent.py:75-88 | Empty text gives an empty story. |
| StructuredText.PlainTextUnchanged | report_generation_agent.py:82 | Text without `**` is left as it is. |
| StructuredText.BoldSpan | report_generation_agent.py:82 | `**x**` becomes `<b>x</b>` when `x` is one line without `*`. |
| StructuredText.ParagraphsOfJoin | report_generation_agent.py:84 | Single lines joined by blank lines split back into those lines. |
| StructuredText.UntagBold | report_generation_agent.py:92-95 | Removing the tags from `<b>x</b>` gives `x` back when `x` has no `<`. |
| StructuredText.PlainParagraphIsBody | report_generation_agent.py:102-104 | Text without markup is body text. |
| StructuredText.NumberedBoldLineIsHeading | report_generation_agent.py:90-93 | `**1. Introduction**` on its own line becomes a level-two heading reading `1. Introduction`. |
| StructuredText.BoldLineHeadingLevel | report_generation_agent.py:90-96 | An unnumbered bold line is a level-two heading with exactly one `:`, and a level-three heading otherwise. |
| StructuredText.ScoreLineIsBoldBody | report_generation_agent.py:99-101 | A score marker followed by more text is set in the bold body style. |
| ReportGeneration.RemoveUnsafe | report_generation_agent.py:109 | No unsafe character is left, and the result is no longer than the topic. |
| ReportGeneration.Slug | report_generation_agent.py:109 | `safe_topic`: the topic without unsafe characters, cut to 50 characters, stripped, spaces turned into `_`, or `report` when nothing is left. `SlugShape`, `SafeTopicSlug`, `SlugIdempotent` and `NothingLeftGivesDefault` state its properties. |
| ReportGeneration.ReportPath | report_generation_agent.py:111 | `reports/<slug>_research_report.pdf`. `ReportPathInReports` states its shape. |
| ReportGeneration.RemoveUnsafeKeepsSafe | report_generation_agent.py:109 | A character survives exactly when it is safe. |
| ReportGeneration.RemoveUnsafeAppend | report_generation_agent.py:109 | Removing unsafe characters works piece by piece: the result for `a + b` is the result for `a` followed by the result for `b`. |
| ReportGeneration.SlugShape | report_generation_agent.py:109 | The slug is non-empty, at most 50 characters, and has no unsafe character, no space and no white space at either end. |
| ReportGeneration.SafeTopicSlug | report_generation_agent.py:109 | A short, safe, trimmed topic becomes itself with spaces turned into `_`. |
| ReportGeneration.SlugIdempotent | report_generation_agent.py:109 | The slug of a slug is itself. |
| ReportGeneration.NothingLeftGivesDefault | report_generation_agent.py:109 | A topic of unsafe characters and white space only gives `report`. |
| ReportGeneration.ReportPathInReports | report_generation_agent.py:111 | The path starts with `reports/`, ends with `_research_report.pdf` and has exactly one `/`. |
| ReportGeneration.SurveyBody | report_generation_agent.py:130-158 | The survey section's body: the missing-survey note; the parsed table when its header has a cell; otherwise the could-not-parse note followed by the survey as structured text. `SurveyAsTable` states its cases. |
| ReportGeneration.ReportStory | report_generation_agent.py:121-190 | The flowables in order: the title page and its page break, then the five sections, each a heading, a spacer and its body or its missing note, with a page break after each of the first four. `FiveSectionsFivePages` counts its page breaks. |
| ReportGeneration.GeneratePdfReport | report_generation_agent.py:108-198 | The report at `ReportPath(topic)` built from `ReportStory`; the path is returned exactly when the build went through. |
| ReportGeneration.RunReportGeneration | report_generation_agent.py:201-222 | No connection ends the run; with none of survey, gap analysis or proposal the report is skipped; otherwise it is generated from the five latest analyses. `GeneratedOnlyWithEssentials` states this. |
| ReportGeneration.GeneratedOnlyWithEssentials | report_generation_agent.py:201-222 | A report is generated exactly when connected and one of survey, gap analysis or proposal is present; the verification reports alone do not suffice. It is built from the five latest analyses at the report path, and the path is returned exactly when the build went through. |
| ReportGeneration.SurveyAsTable | report_generation_agent.py:130-156 | The survey is shown as a table exactly when it has a table line. The table then has a non-empty header and rows of its width. Otherwise a note is followed by the survey as structured text. |
| ReportGeneration.StoryHasNoBreaks | report_generation_agent.py:74-106 | Structured text never adds a page break. |
| ReportGeneration.FiveSectionsFivePages | report_generation_agent.py:121-190 | The report has exactly five page breaks: after the title page and after each of the first four sections. |

## Left out

- I/O is not modelled: HTTP requests, XML and JSON decoding, file writes, the 1 KiB size warning, SQL, `print` and `time.sleep`. Each appears only through parameters or returned values.
- Random waits are not modelled: the jitter before requests (`uniform(2, 4)`, `uniform(3, 6)`) and the 60-120 s cool-down after a Semantic Scholar 429. The cool-downs are only counted.
- JSON values of an unexpected type (a number where a string is expected, say) are not modelled. JSON fields are only missing, `null` or of the expected type.
- Database errors are not modelled. The `INSERT`, `UPDATE` and `SELECT` statements succeed.
- `save_paper_to_db`'s `ON DUPLICATE KEY` update is not modelled: saved rows are appended to a log.
- The `analyses` table is modelled as one row per analysis type, which matches its `ON DUPLICATE KEY UPDATE`. The `ORDER BY created_at` of the reads is therefore not modelled.
- Summarization.RunSummarization: the paper query (`full_text IS NOT NULL` and an abstract without `Introduction:`) is not modelled; the selected papers are its input.
- Python regular expressions are modelled for ASCII text. `\s` and `str.strip` use the white-space set of `Text.IsSpace`, while `\d` and `.lower()` are ASCII only.
- `int(total_results * 1.5)` is computed in integers. For the quotas used (50, 25, 25) this matches the floating-point result.
- `topic.title()` and `time.strftime(...)` are parameters of the title page.
- reportlab page layout, styles, column widths and table colours are not modelled. The report is the sequence of flowables handed to `doc.build`, and whether the build succeeds is a parameter.
- reportlab's `Paragraph` parses its markup when it is constructed and raises on malformed markup (report_generation_agent.py:56, 64, 93, 100, 103). That exception is raised before `doc.build`, escapes `generate_pdf_report` and is caught by `run_report_generation` at line 224. The model folds this case into `built == false`: no file is written and nothing is returned, as when `doc.build` fails.
- Prompt wording is not modelled. Each prompt is modelled by the texts it carries: the source text, the summaries and the analysis checked.
- The model's response objects are abstracted into three kinds: text, blocked with a finish reason, or an exception message.
- `vertexai.init` at import time is not modelled.
- The `__main__` blocks are not modelled. They read input, create directories and catch everything. The gap and summarisation agents' blocks test `__name__ == 'main'` and never run.
- Preprocessing_agent.py, Comparative_analysis.py, main.py and Streamlit_app.py are not part of this model. They extract full texts, write the survey, sequence the agents and provide the UI.
- Download.LongNameOverwrites: the code keeps a new download from overwriting an existing file only while the timestamped name still fits in 150 characters. The model follows the code and proves the case where it overwrites.
- SemanticScholar.RateLimitMovesOn: after a 429 the loop moves on to the next offset; it does not retry the same one. The model follows the code.
