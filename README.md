# Sanskriti IAS scraper: a verified model

This project models the core of the `data-scraper` service of `upsc-exam-ai`:

- the Sanskriti IAS news source (`SanskritiIASSource`). It builds the URL of each daily page,
  walks the article containers of a page, and extracts from each one:
  - the title and link;
  - the Prelims/Mains metadata;
  - the content sections with their subheadings;
  - the FAQ pairs;
  - the content images.
- the stand-alone `extract_article_details` extractor of the detailed extraction script, which reads
  the same markup into a richer shape;
- the `PostgresDB` handler: connection, schema, duplicate check, insert with rollback, and the
  "latest first" query;
- the `sync_sanskriti_ias` run, which fetches a window of days and inserts every article while
  counting inserts, duplicates and errors;
- the text cleaners `clean_text`, `extract_paragraphs`, `normalize_whitespace` and
  `clean_article_text`;
- the `NewsSource` base class with `validate_article`, and the `Article` dataclass with its
  construction checks and `to_dict`.

## How the pieces are modelled

- **The page.** An article container is a flat sequence of `Dom.Node` values in document order.
  - `find` is the first matching node (`Dom.FindFirst`).
  - `find_next_sibling` is the next index.
  - The bounded scan "until the next `h2` or `h4`" is `Dom.Region` / `Dom.ScanEnd`.
- **Extractors.** Each extractor is specified twice:
  - as a pure scan function over that sequence (`SectionRun`, `FaqRun`, `QaRun`, `ParseLines`, …);
  - as a method with the source's own `while`/`for` loop, proved equal to that function.
- **Properties.** What the source promises is then proved about the functions. Examples:
  - no block of a section is lost or reordered;
  - exactly one FAQ pair per question paragraph;
  - the last matching metadata line wins;
  - every fetched article carries the date of one day of the window.
- **The database.** `PostgresDB` is a class whose fields are:
  - the connection state;
  - whether the current transaction is aborted;
  - the `ca_articles` table, as a map from `source_url` to row.
- **Database methods.** Each method is tied to a pure step function (`ConnectStep`, `InsertStep`, …).
  Faults are inputs: a statement runs, the server rejects it, or the connection drops. The lemmas
  then relate the step functions, for example:
  - `True` is returned exactly when a new row is stored;
  - inserting twice gives `True` and then `False`;
  - a failed duplicate check makes the insert return `False`.
- **Dates and strings.** Dates are proleptic Gregorian `Calendar.Date` values with day numbers.
  String operations (`strip`, `split`, `replace`, `in`, `startswith`, `str(n)`) are modelled in
  `Text`.

## Model

| member | source | states |
|---|---|---|
| Calendar.NextDay | app/sources/sanskriti.py:329 | `current_date + timedelta(days=1)` is a valid date whose day number is one higher |
| Calendar.PrevDay | app/sources/sanskriti.py:315 | one day back is a valid date whose day number is one lower |
| Calendar.NextOfPrev | app/sources/sanskriti.py:315-329 | stepping one day forward undoes stepping one day back |
| Calendar.Shift | app/sources/sanskriti.py:315 | `end_date - timedelta(days=days_back)` is a valid date exactly `days_back` day numbers earlier |
| Calendar.NextOfShift | app/sources/sanskriti.py:315-329 | one more day after a shift by `k` days is a shift by `k + 1` days |
| Calendar.DayAfterIsShift | app/sources/sanskriti.py:319-329 | adding one day `k` times in the loop equals adding `k` days at once |
| Calendar.DateLeIsOrdinalLe | app/sources/sanskriti.py:320 | the loop test `current_date <= end_date` (year, then month, then day) agrees with comparing day numbers, in both directions |
| Calendar.MonthNumberOfName | app/sources/sanskriti.py:39 | the `%B` month name identifies its month and holds no `-` |
| Calendar.ParseIsoDate | app/db/postgres.py:54 | reads a `YYYY-MM-DD` string with a four-digit year as that calendar day, and nothing that is not a real calendar day |
| Calendar.IsoDateRoundTrip | app/sources/sanskriti.py:140 | `strftime('%Y-%m-%d')` of a four-digit-year date is 10 characters with dashes at 4 and 7, and reads back as the same date |
| Text.Strip | app/parser/clean_text.py:32 | `strip()` returns the contiguous piece of the input left after its leading whitespace, with no whitespace at either end |
| Text.StripDropsOnlyWhitespace | app/parser/clean_text.py:32 | every character `strip()` cuts off before or after that piece is whitespace |
| Text.Split | app/parser/clean_text.py:49 | `split('\n')` yields at least one part and no part holds the separator |
| Text.SplitJoin | app/parser/clean_text.py:49 | re-joining the parts of `split(sep)` with `sep` gives back the text |
| Text.ParseNatToString | app/sources/sanskriti.py:38 | `str(date.day)` reads back as the same number |
| Dom.ScanEnd | app/sources/sanskriti.py:189-190 | the scan stops at the first `h2`/`h4` at or after its start, or at the end of the siblings |
| Dom.Region | app/sources/sanskriti.py:189-190 | no node the sibling scan visits is an `h2` or `h4` |
| Dom.FindFirst | app/sources/sanskriti.py:102 | `find` returns the first matching node; none matches before it; None exactly when no node matches |
| Dom.NonBlankLines | app/sources/sanskriti.py:160 | every kept line is non-empty and stripped |
| Dom.NonBlankIsLongLines | app/sources/sanskriti.py:160 | the comprehension `[l.strip() for l in lines if l.strip()]` is `extract_paragraphs`' filter with a minimum length of one |
| Dom.NonBlankLinesAt | app/sources/sanskriti.py:160 | line `k` is kept, stripped, exactly when it is not blank, between the kept lines before and after it |
| SanskritiSource.ParseDateUrl | app/sources/sanskriti.py:26-41 | a URL reads back only to a valid date and only when it starts with the base URL |
| SanskritiSource.DateUrlRoundTrip | app/sources/sanskriti.py:26-41 | the daily URL reads back as its own date, so distinct days have distinct URLs |
| SanskritiSource.DateUrlExample | app/sources/sanskriti.py:36 | 20 December 2025 gives `.../date/20-December-2025` |
| SanskritiSource.ArticleOf | app/sources/sanskriti.py:139-144 | an extracted article's `published_date` is the ISO form of the page's date |
| SanskritiSource.ArticleNeedsTitleLink | app/sources/sanskriti.py:102-114 | an article is produced exactly when the first `h4` has an `a.text-danger` with non-blank text and a non-empty `href` |
| SanskritiSource.ArticleFields | app/sources/sanskriti.py:110-144 | `source_url` is the title link's `href` and `title` its stripped text, both non-empty; the source name, the four extractors' results, and attachments exactly when there are images |
| SanskritiSource.ExtractArticle | app/sources/sanskriti.py:90-144 | `_extract_article` returns `ArticleOf` |
| SanskritiSource.ArticlesOf | app/sources/sanskriti.py:71-81 | at most one article per container, each dated with the page's day |
| SanskritiSource.ArticlesOfConcat | app/sources/sanskriti.py:72-79 | the articles of two runs of containers are those of the first run followed by those of the second |
| SanskritiSource.ArticlesOfAt | app/sources/sanskriti.py:72-79 | container `k` contributes its article exactly when it is a `div` whose extraction succeeds, and that article sits between the articles of the containers before and after it; a failing container contributes nothing |
| SanskritiSource.FetchArticlesForDate | app/sources/sanskriti.py:43-88 | the loop over the containers returns `ArticlesForDate`: nothing when the page cannot be fetched |
| SanskritiSource.DayArticlesDated | app/sources/sanskriti.py:43-88 | every article of a daily page carries that day's ISO date |
| SanskritiSource.WindowGuard | app/sources/sanskriti.py:314-320 | `current_date <= end_date` holds on the `k`-th day exactly while `k < days_back + 1` |
| SanskritiSource.WindowDays | app/sources/sanskriti.py:314-329 | the `j`-th day visited is `now - days_back + j` and is not after `now` |
| SanskritiSource.FetchArticles | app/sources/sanskriti.py:303-332 | the date loop returns the daily results of the window concatenated in day order |
| SanskritiSource.OverDaysLabelled | app/sources/sanskriti.py:319-329 | if each day's results carry that day's label, so do the results concatenated over the days |
| SanskritiSource.ArticlesCarryWindowDates | app/sources/sanskriti.py:303-332 | every fetched article carries the ISO date of a day in `[now - days_back, now]` |
| SanskritiMetadata.ExtractMetadata | app/sources/sanskriti.py:146-169 | returns `MetadataOf`: empty metadata without the table or its `td`, otherwise the parsed cell lines |
| SanskritiMetadata.ParseCellLines | app/sources/sanskriti.py:162-167 | the line loop returns `ParseLines` of the cell's lines |
| SanskritiMetadata.LastPrelimsLineWins | app/sources/sanskriti.py:163-164 | `prelims` is the value of the last `Prelims:` line, None without one |
| SanskritiMetadata.LastMainsLineWins | app/sources/sanskriti.py:165-167 | `mains` is the value of the last non-Prelims line holding `Mains` and `:` or `,`, None without one |
| SanskritiMetadata.TagsStayEmpty | app/sources/sanskriti.py:151 | `tags` is never filled |
| SanskritiMetadata.LastMatchingLineWins | app/sources/sanskriti.py:148-167 | the three metadata fields together, as above |
| SanskritiMetadata.PrelimsLabelRemoved | app/sources/sanskriti.py:163-164 | `Prelims: v` is a Prelims line and yields `v` stripped |
| SanskritiMetadata.MainsLabelRemoved | app/sources/sanskriti.py:165-167 | `Mains: v` is a Mains line and yields `v` stripped |
| SanskritiContent.Bullets | app/sources/sanskriti.py:210-214 | one `• item` line per non-empty item at most, each starting with the bullet and a space |
| SanskritiContent.BulletLines | app/sources/sanskriti.py:210-214 | the list-item loop returns `Bullets` |
| SanskritiContent.BulletsConcat | app/sources/sanskriti.py:210-214 | the bullets of two runs of items are those of the first run followed by those of the second |
| SanskritiContent.BulletsAt | app/sources/sanskriti.py:210-214 | item `k` becomes the line `• item` exactly when it is non-empty, between the bullets of the items before and after it |
| SanskritiContent.NoBulletsIffBlank | app/sources/sanskriti.py:210-216 | a list adds no bullet exactly when all its items are blank |
| SanskritiContent.BlockTextShape | app/sources/sanskriti.py:203-216 | a paragraph or list adds a non-empty block; a list adds none exactly when all its items are blank |
| SanskritiContent.ScanSection | app/sources/sanskriti.py:186-226 | the sibling scan under one `h2` returns the section cut at its `h3`s: one record per `h3`-free stretch with text, under the text of the `h3` before that stretch (None before the first `h3`), its blocks joined by blank lines |
| SanskritiContent.ExtractContent | app/sources/sanskriti.py:171-228 | `_extract_content` returns `Content`: the records of every non-FAQ `h2` in document order, each section split at its `h3`s as `SectionMatchesReference` states |
| SanskritiContent.RunKeepsBlocks | app/sources/sanskriti.py:190-218 | the scan keeps the flushed blocks, then the pending blocks, then the blocks still to come, in order |
| SanskritiContent.RunWellFormed | app/sources/sanskriti.py:193-200 | every subsection written out has at least one block and no empty block |
| SanskritiContent.SectionKeepsEveryBlock | app/sources/sanskriti.py:186-226 | no block of a section is lost, duplicated or reordered; every subsection has a block; no subsection exactly when no sibling has text |
| SanskritiContent.OneSubsectionWithoutSubheadings | app/sources/sanskriti.py:186-226 | without an `h3`, a section with text yields exactly one subsection, with no subheading |
| SanskritiContent.NextSubheading | app/sources/sanskriti.py:191 | the position of the first `h3` of a run of siblings: an `h3` there, none before it |
| SanskritiContent.RunMatchesReference | app/sources/sanskriti.py:190-218 | from any scan state, the scan closes the running subsection with the blocks up to the next `h3`, then yields the subsections of the section cut at the `h3`s after it |
| SanskritiContent.SubheadingStep | app/sources/sanskriti.py:191-200 | an `h3` closes the running subsection only when it holds a block, and its text is the subheading of the stretch after it |
| SanskritiContent.BlockStep | app/sources/sanskriti.py:202-216 | a paragraph or list adds its block to the running subsection; any other sibling adds nothing; neither moves a split |
| SanskritiContent.SectionMatchesReference | app/sources/sanskriti.py:186-226 | the subsections of a section are exactly the section cut at its `h3`s: each `h3`-free stretch with text becomes one subsection of its blocks, under the text of the `h3` before it, or None before the first `h3` |
| SanskritiContent.FirstSubsectionSubheading | app/sources/sanskriti.py:191-201 | the first subsection carries the last `h3` before the first text-bearing sibling |
| SanskritiContent.ContentRecordsWellFormed | app/sources/sanskriti.py:178-226 | every record has non-empty content and the text of a non-`FAQS` `h2` as heading |
| SanskritiContent.NoHeadingNoRecords | app/sources/sanskriti.py:176-178 | nodes that are not `h2` headings add no records |
| SanskritiContent.TwoSubheadingsGiveTwoRecords | app/sources/sanskriti.py:191-226 | one `h2` with two `h3` subsections of one paragraph each gives two records with those subheadings |
| SanskritiContent.EmptySectionYieldsNothing | app/sources/sanskriti.py:221-226 | an `h2` followed straight away by another heading gives no record |
| SanskritiFaqs.ExtractFaqs | app/sources/sanskriti.py:230-277 | `_extract_faqs` returns `Faqs`: nothing without a `FAQS` heading |
| SanskritiFaqs.ScanFaqs | app/sources/sanskriti.py:245-275 | the question/answer loop returns `FaqRun` over the heading's siblings |
| SanskritiFaqs.RunMatchesReference | app/sources/sanskriti.py:249-275 | from any scan state, the scan equals the saved pairs plus the reference pairing of the rest |
| SanskritiFaqs.FaqsMatchReference | app/sources/sanskriti.py:244-275 | the scan pairs each question with the non-empty, non-question paragraphs up to the next question, space-joined |
| SanskritiFaqs.RunCount | app/sources/sanskriti.py:249-275 | the scan yields the open pair, if any, plus one pair per question paragraph |
| SanskritiFaqs.OnePairPerQuestion | app/sources/sanskriti.py:230-277 | one pair per question paragraph of the FAQ block; none without a `FAQS` heading |
| SanskritiFaqs.QuestionTestAsWritten | app/sources/sanskriti.py:254 | `'Q' in text[:5] or 'Q.' in text[:5]` is `'Q' in text[:5]` |
| SanskritiImages.Images | app/sources/sanskriti.py:279-301 | at most one image per node, each URL containing `uploaded_files/images` |
| SanskritiImages.ExtractImages | app/sources/sanskriti.py:279-301 | the `img` loop returns `Images` |
| SanskritiImages.ImagesOfConcat | app/sources/sanskriti.py:283-299 | the images of two stretches of a page are those of each, in order |
| SanskritiImages.ContentImgs | app/sources/sanskriti.py:283-287 | the `img.img-fluid` nodes whose `src` holds `uploaded_files/images`: every one it returns is such a node of the page, and every such node is returned |
| SanskritiImages.ImagesAreTheContentImages | app/sources/sanskriti.py:283-299 | exactly the content `img.img-fluid` nodes are kept, in order, each with URL, alt and parent-link title |
| DetailedExtraction.TitleOf | test/source-9/test_detailed_extraction.py:32-40 | a title exactly when there is an `h4`; with an `a.text-danger` in it, the link's stripped text and its `href`; without one, the `h4`'s own stripped text and no URL |
| DetailedExtraction.MetadataOf | test/source-9/test_detailed_extraction.py:43-66 | the metadata text exactly when a `table.table-bordered` exists; all three fields None otherwise |
| DetailedExtraction.ExtractMetadata | test/source-9/test_detailed_extraction.py:43-66 | step 2 returns `MetadataOf` |
| DetailedExtraction.ParseTagLines | test/source-9/test_detailed_extraction.py:55-59 | the line loop returns `ParseTags` |
| DetailedExtraction.LastPrelimsTagWins | test/source-9/test_detailed_extraction.py:56-57 | the Prelims tag is the value of the last `Prelims:` line |
| DetailedExtraction.LastMainsTagWins | test/source-9/test_detailed_extraction.py:58-59 | the Mains tag is the value of the last line starting `Mains:` or `Mains,` |
| DetailedExtraction.LastTagLinesWin | test/source-9/test_detailed_extraction.py:55-59 | both tags together, as above |
| DetailedExtraction.MainsTagLineIsMainsLine | test/source-9/test_detailed_extraction.py:58 | every Mains line of this extractor is a Mains line of the Sanskriti source |
| DetailedExtraction.MidLineMainsDiffers | test/source-9/test_detailed_extraction.py:58 | the converse fails: a mid-line `Mains:` counts for the source but not for this extractor |
| DetailedExtraction.RowTexts | test/source-9/test_detailed_extraction.py:113 | one text per `td`/`th` of the row |
| DetailedExtraction.RowTextsAt | test/source-9/test_detailed_extraction.py:113 | text `k` of a row is the stripped text of its cell `k` |
| DetailedExtraction.TableRows | test/source-9/test_detailed_extraction.py:111-115 | at most one row per `tr`, none of them empty |
| DetailedExtraction.TableRowsConcat | test/source-9/test_detailed_extraction.py:111-115 | the rows of two runs of `tr`s are those of the first run followed by those of the second |
| DetailedExtraction.TableRowsAt | test/source-9/test_detailed_extraction.py:111-115 | `tr` number `k` is kept, as the texts of its cells, exactly when it has a cell, between the rows kept before and after it |
| DetailedExtraction.ExtractTableRows | test/source-9/test_detailed_extraction.py:111-115 | the rows loop returns `TableRows` |
| DetailedExtraction.BlockOf | test/source-9/test_detailed_extraction.py:84-120 | a sibling adds at most one well-formed block, and the metadata table adds none |
| DetailedExtraction.BlocksBetween | test/source-9/test_detailed_extraction.py:82-122 | every block of a scan is well formed |
| DetailedExtraction.SectionsUpTo | test/source-9/test_detailed_extraction.py:72-128 | at most one section per non-FAQ `h2`, none empty, none titled `FAQS` |
| DetailedExtraction.ScanBlocks | test/source-9/test_detailed_extraction.py:82-122 | the inner sibling loop returns `SectionBlocks` |
| DetailedExtraction.ExtractSections | test/source-9/test_detailed_extraction.py:69-130 | step 3 returns `Sections` |
| DetailedExtraction.BlockOfSubsection | test/source-9/test_detailed_extraction.py:101-107 | a sibling adds a subsection block exactly when it is an `h3` |
| DetailedExtraction.OneSubsectionPerH3 | test/source-9/test_detailed_extraction.py:101-107 | every `h3` in a scan becomes exactly one subsection block, even one without text |
| DetailedExtraction.DetailImages | test/source-9/test_detailed_extraction.py:133-152 | every kept image's `src` contains `uploaded_files/images` |
| DetailedExtraction.ExtractImages | test/source-9/test_detailed_extraction.py:133-152 | step 4 returns `DetailImages` |
| DetailedExtraction.SameImagesAsSource | test/source-9/test_detailed_extraction.py:133-152 | the same pictures as the Sanskriti source, in order, with the link title as caption |
| DetailedExtraction.AnswerStep | test/source-9/test_detailed_extraction.py:181-188 | a non-question sibling only adds its paragraph text or all its list items to the answer |
| DetailedExtraction.ExtractFaqs | test/source-9/test_detailed_extraction.py:155-199 | step 5 returns `DetailFaqs`: nothing without a `FAQS` heading |
| DetailedExtraction.ScanFaqs | test/source-9/test_detailed_extraction.py:163-197 | the FAQ loop returns `QaRun` over the heading's siblings, which `QaMatchesReference` equates with the question-by-question pairing `QaReference` |
| DetailedExtraction.QDotTestAsWritten | test/source-9/test_detailed_extraction.py:172 | the model's test for a `Q` followed by `.` is the substring test `'Q.' in text[:5]` |
| DetailedExtraction.QuestionAtIsFirst | test/source-9/test_detailed_extraction.py:167-177 | the next question found from position `i` is a question paragraph and no sibling before it is one |
| DetailedExtraction.QaRunCount | test/source-9/test_detailed_extraction.py:167-197 | one pair per question paragraph with text; an empty question paragraph yields none |
| DetailedExtraction.QaRunQuestionsAsked | test/source-9/test_detailed_extraction.py:174-197 | every saved question has text |
| DetailedExtraction.LastQuestionTakesTheRest | test/source-9/test_detailed_extraction.py:181-197 | after the last question, every later paragraph and list item joins its answer, in order |
| DetailedExtraction.RunMatchesReference | test/source-9/test_detailed_extraction.py:167-197 | from any scan state, the scan gives the saved pairs, then the open question with the answer parts up to the next question, then the reference pairing of the rest |
| DetailedExtraction.QaMatchesReference | test/source-9/test_detailed_extraction.py:163-197 | the scan pairs each question with text with the paragraph texts and list items up to the next question, space-joined, in document order; a question without text yields no pair; siblings before the first question are dropped |
| DetailedExtraction.OnePairPerAskedQuestion | test/source-9/test_detailed_extraction.py:155-199 | the FAQ count for a whole container; none without a `FAQS` heading; all questions non-empty |
| DetailedExtraction.ExtractArticleDetails | test/source-9/test_detailed_extraction.py:19-199 | the five steps in order give `DetailsOf` |
| Postgres.ConnectStep | app/db/postgres.py:26-39 | returns exactly when the connection succeeds, leaving an open, clean connection; the table is untouched |
| Postgres.DisconnectStep | app/db/postgres.py:41-45 | leaves no open connection and the table untouched |
| Postgres.InitSchemaStep | app/db/postgres.py:47-75 | succeeds exactly on an open, clean connection without fault; then the table exists and keeps its rows; a failure leaves the table as it was |
| Postgres.ExistsStep | app/db/postgres.py:77-86 | `True` exactly when the query runs and the URL is stored; the table is untouched |
| Postgres.PostgresDB.constructor | app/db/postgres.py:17-19 | no connection yet, over what the server already holds, whose rows sit under their own `source_url` (the UNIQUE column of line 55), an invariant every method keeps |
| Postgres.PostgresDB.Connect | app/db/postgres.py:26-39 | outcome and new state are those of `ConnectStep` |
| Postgres.PostgresDB.Disconnect | app/db/postgres.py:41-45 | new state is that of `DisconnectStep` |
| Postgres.PostgresDB.InitSchema | app/db/postgres.py:47-75 | outcome and new state are those of `InitSchemaStep` |
| Postgres.PostgresDB.ArticleExists | app/db/postgres.py:77-86 | outcome and new state are those of `ExistsStep` |
| Postgres.PostgresDB.InsertArticle | app/db/postgres.py:88-131 | outcome and new state are those of `InsertStep` |
| Postgres.PostgresDB.GetArticles | app/db/postgres.py:133-166 | at most `limit` rows of the source, latest first, none later left out, each the row stored under its own URL; `[]` when the query fails |
| Postgres.MatchingIsStoredRows | app/db/postgres.py:144-157 | in a table keyed by `source_url`, the rows `WHERE article->>'source' = %s` keeps are exactly the stored rows passing the filter, each under its own URL |
| Postgres.LatestRow | app/db/postgres.py:148 | a row of the pool with no later row in the pool |
| Postgres.Latest | app/db/postgres.py:148-149 | `min(limit, size)` distinct rows of the pool in descending date order, and no row left out is later than one returned |
| Postgres.LatestStaysOrdered | app/db/postgres.py:148 | appending the latest remaining row keeps the selection ordered and ahead of the rest |
| Postgres.InsertTrueIffRowAdded | app/db/postgres.py:88-131 | `True` exactly when the table is ready, nothing fails, the date is valid and the URL is new; then exactly that row is added, otherwise the table is untouched |
| Postgres.InsertKeepsKeyedByUrl | app/db/postgres.py:55 | every row stays stored under its own `source_url` |
| Postgres.DuplicateIsRefused | app/db/postgres.py:101-104 | a URL already stored gives `False` and changes nothing |
| Postgres.InsertTwice | app/db/postgres.py:99-131 | the same URL twice gives `True`, then `False`, and one row for it |
| Postgres.FailedCheckReadsAsDuplicate | app/db/postgres.py:84-131 | a failed duplicate check makes the insert fail and roll back: `False`, nothing stored |
| Postgres.WriteErrorRollsBack | app/db/postgres.py:128-131 | a server error in the insert or commit gives `False` with table and transaction restored |
| Postgres.DroppedWriteRaises | app/db/postgres.py:128-131 | a connection lost during the insert makes the rollback, and so the call, raise |
| Postgres.NoConflictAfterCleanCheck | app/db/postgres.py:102-110 | after a check that ran and found nothing, the URL is absent, so `ON CONFLICT` cannot fire within this session |
| SyncSanskriti.Sync | scripts/sync_sanskriti.py:36-122 | the four ways the run ends (connect fails, schema fails, nothing fetched, loop completed), with the report and the final database state of each |
| SyncSanskriti.InsertAll | scripts/sync_sanskriti.py:76-96 | the insert loop's counters and database state are those of `InsertRun` |
| SyncSanskriti.CountsAddUp | scripts/sync_sanskriti.py:80-96 | inserted + duplicates + errors equals the number of articles processed |
| SyncSanskriti.InsertedCountIsNewRows | scripts/sync_sanskriti.py:80-96 | the table grows by exactly the inserted count and never loses a URL |
| SyncSanskriti.HealthyRunStoresAll | scripts/sync_sanskriti.py:80-96 | without faults and with valid dates there are no errors and every fetched URL ends up stored |
| TextCleaning.CollapseSpaces | app/parser/clean_text.py:29 | `re.sub(r'\s+', ' ', s)` leaves no two whitespace characters in a row and no whitespace but spaces; empty exactly when the input is; starts with a space exactly when the input starts with whitespace; what each run becomes is `CollapseSpacesRun` |
| TextCleaning.CollapseSpacesConcat | app/parser/clean_text.py:29 | no run of whitespace crosses a point where the text before it ends without whitespace: the two sides are substituted separately |
| TextCleaning.CollapseSpacesRun | app/parser/clean_text.py:29 | a run of whitespace of any length and kind, between text ending and text starting without whitespace, becomes exactly one space |
| TextCleaning.CollapseIsJoin | app/parser/clean_text.py:29 | for text that starts without whitespace, the substitution gives its words, as `str.split()` finds them, joined by one space, plus one space when the text ends in whitespace |
| TextCleaning.CollapseThenStrip | app/parser/clean_text.py:29-32 | substituting then stripping gives the words of the text joined by single spaces |
| TextCleaning.CollapseSpacesKeepsText | app/parser/clean_text.py:29 | the substitution deletes or adds only whitespace: the other characters are those of the input, in order |
| TextCleaning.CollapseClean | app/parser/clean_text.py:29 | text already single-spaced with plain spaces is unchanged by the substitution |
| TextCleaning.CleanText | app/parser/clean_text.py:9-34 | `""` for empty input; otherwise stripped, single-spaced, with plain spaces only; its value is `CleanTextIsJoinedWords` |
| TextCleaning.CleanTextIsJoinedWords | app/parser/clean_text.py:9-34 | for non-empty input, `clean_text` is the words of the text after entity decoding and tag removal joined by single spaces, as `' '.join(t.split())` |
| TextCleaning.StripKeepsText | app/parser/clean_text.py:32 | `strip()` deletes only whitespace: the other characters survive in order |
| TextCleaning.CleanTextKeepsText | app/parser/clean_text.py:9-34 | cleaning keeps every non-whitespace character left by entity decoding and tag removal, in order, and adds none |
| TextCleaning.CleanTextIdempotent | app/parser/clean_text.py:9-34 | cleaning twice is cleaning once, once entities and tags are gone |
| TextCleaning.LongLines | app/parser/clean_text.py:49 | at most one paragraph per line, each stripped and at least `min_length` long |
| TextCleaning.LongLinesConcat | app/parser/clean_text.py:49 | the paragraphs of two runs of lines are those of the first run followed by those of the second |
| TextCleaning.LongLinesAt | app/parser/clean_text.py:49 | line `k` is kept, stripped, exactly when its stripped length reaches `min_length`, and sits between the paragraphs of the lines before and after it |
| TextCleaning.NoMinimumKeepsEveryLine | app/parser/clean_text.py:49 | with no minimum, every line is kept, stripped, in order |
| TextCleaning.OneLine | app/parser/clean_text.py:48-50 | text without a newline gives its stripped self exactly when that is long enough |
| TextCleaning.SqueezeSpaces | app/parser/clean_text.py:89 | `re.sub(r' +', ' ', s)` leaves no two spaces in a row, keeps the first character, and is empty exactly when the input is; what each run becomes is `SqueezeSpacesRun` |
| TextCleaning.SqueezeSpacesConcat | app/parser/clean_text.py:89 | no run of spaces crosses a point where the text before it does not end in a space: the two sides are substituted separately |
| TextCleaning.SqueezeSpacesRun | app/parser/clean_text.py:89 | a run of `n >= 1` spaces, between text not ending and text not starting with a space, becomes exactly one space |
| TextCleaning.SqueezeSpacesKeepsText | app/parser/clean_text.py:89 | the substitution deletes or adds only spaces: every other character survives, in order |
| TextCleaning.SqueezeNewlines | app/parser/clean_text.py:92 | `re.sub(r'\n\n+', '\n\n', s)` leaves no three newlines in a row and adds no double space; what each run becomes is `SqueezeNewlinesRun` |
| TextCleaning.SqueezeNewlinesConcat | app/parser/clean_text.py:92 | no run of newlines crosses a point where the text before it does not end in a newline: the two sides are substituted separately |
| TextCleaning.SqueezeNewlinesRun | app/parser/clean_text.py:92 | a run of `n` newlines, between text not ending and text not starting with a newline, becomes exactly two newlines when `n >= 2` and stays one newline when `n == 1` |
| TextCleaning.SqueezeNewlinesKeepsText | app/parser/clean_text.py:92 | the substitution deletes or adds only newlines: every other character survives, in order |
| TextCleaning.SqueezeSpacesIdentity | app/parser/clean_text.py:89 | text without a double space is unchanged |
| TextCleaning.SqueezeNewlinesIdentity | app/parser/clean_text.py:92 | text without three newlines in a row is unchanged |
| TextCleaning.NormalizeWhitespace | app/parser/clean_text.py:78-94 | no double space, no three newlines in a row, stripped; that it keeps the text is `NormalizeKeepsText`, what it makes of each run is `NormalizeSpaceRun` and `NormalizeNewlineRun` |
| TextCleaning.NormalizeKeepsText | app/parser/clean_text.py:78-94 | normalising deletes or adds only whitespace: every other character survives, in order, so `""` comes only from blank input |
| TextCleaning.NormalizeSpaceRun | app/parser/clean_text.py:89-94 | between two pieces of normalised text, a run of `n >= 1` spaces becomes exactly one space and nothing else changes |
| TextCleaning.NormalizeNewlineRun | app/parser/clean_text.py:92-94 | between two pieces of normalised text, a run of two or more newlines becomes exactly `\n\n`, a single newline stays, and nothing else changes |
| TextCleaning.NormalizeFixesClean | app/parser/clean_text.py:78-94 | text with those three properties is left as it is |
| TextCleaning.NormalizeIdempotent | app/parser/clean_text.py:78-94 | normalising twice is normalising once |
| TextCleaning.CleanArticleText | app/parser/clean_text.py:97-110 | the pipeline's result has no double space, no three newlines in a row, and is stripped |
| TextCleaning.PipelineEndsClean | app/parser/clean_text.py:64-110 | when boilerplate removal cuts the one-line cleaned text and strips it, the final normalisation changes nothing |
| ArticleModel.NewArticle | app/models/article.py:24-31 | construction succeeds exactly when source, title and URL are non-empty, copying every field; otherwise the first failing check's message |
| ArticleModel.NewArticleDefault | app/models/article.py:20 | without `cleaned_text` the field is None |
| ArticleModel.NewArticleRoundTrip | app/models/article.py:24-31 | an article's own fields rebuild it exactly when it is well formed, else give the first failing check's message |
| ArticleModel.ToDict | app/models/article.py:33-44 | every field copied, `published_date` reduced to its date |
| ArticleModel.ToDictForgetsOnlyTime | app/models/article.py:33-44 | two articles give the same dictionary exactly when they differ at most in the time of `published_date` |
| NewsSources.NewsSource.constructor | app/sources/base.py:13-20 | stores the source name |
| NewsSources.NewsSource.ValidateArticle | app/sources/base.py:48-67 | `False` for a title shorter than 10, an empty URL, or raw text shorter than 50; `True` exactly otherwise |
| NewsSources.ValidArticleConstructs | app/sources/base.py:48-67 | an article that passes validation and has a source rebuilds to itself through construction |
| NewsSources.ValidationIgnoresOtherFields | app/sources/base.py:58-65 | only title, URL and raw text affect validation |

## Behaviour of the code that the model keeps

- **Sanskriti FAQ scan.** The Sanskriti FAQ loop looks only at `p` siblings
  (app/sources/sanskriti.py:249-268), so a list never joins an answer. The detailed extractor
  does add list items (test/source-9/test_detailed_extraction.py:185-188).
- **Question test.** A paragraph opens a question when it has a `strong` and `'Q'` occurs among
  its first five characters (app/sources/sanskriti.py:254). `SanskritiFaqs.QuestionTestAsWritten`
  shows that the `'Q.'` half of the test never decides. The detailed extractor's test
  (test/source-9/test_detailed_extraction.py:172) looks for `'Q'` in the first three characters of
  the `strong` or `'Q.'` in the first five of the paragraph; `DetailedExtraction.HasQDot` states the
  second half, equal to the substring test by `DetailedExtraction.QDotTestAsWritten`.
- **Image captions.** Every image gets a caption field: the parent link's `title`, or `""`
  (app/sources/sanskriti.py:291-297).
- **Storage failures.** `insert_article` catches every failure, rolls back and returns `False`
  (app/db/postgres.py:128-131), so the sync script counts the article as a duplicate. An error is
  counted only when the rollback itself raises. A failed duplicate check also leads to `False`
  (`Postgres.FailedCheckReadsAsDuplicate`).
- **Connection failures.** The sync script logs the exception and disconnects in `finally`
  (scripts/sync_sanskriti.py:117-122), so the run ends without raising; the model reports
  `ConnectFailed`.
- **Content records.** The Sanskriti source emits flat records `{heading, subheading, content}`
  with the blocks of a subsection joined by blank lines (app/sources/sanskriti.py:218-226). The
  detailed extractor keeps one section per `h2` and emits each `h3` as a subsection block
  (test/source-9/test_detailed_extraction.py:101-107).

## Left out

- HTTP fetching, headers, timeouts, `time.sleep` and logging are not modelled. A daily page is the
  input `fetch: string -> Page`: a failed fetch, or the page's `div.blog` containers, each of which
  may raise during extraction.
- BeautifulSoup parsing is not modelled: an article container is given as its flat sequence of
  nodes. `find_all` and `find_next_sibling` are taken over that one sequence, so nesting beyond one
  level (an `img` deep inside a paragraph, say) is abstracted into node fields.
- `datetime.now()` is the parameter `now`. The `extracted_at` timestamp of the article JSON is not
  modelled, because it only records the wall clock.
- Step 6 of `extract_article_details` (`raw_text`, the whole container's text) is not modelled: it
  needs the full tree text.
- `html.unescape`, the tag-removing regular expression and `remove_boilerplate` are parameters of
  `CleanText` and `CleanArticleText`. Their regular expressions are not modelled.
- TextCleaning.PipelineEndsClean: stated only for a `remove_boilerplate` that cuts the cleaned text
  at one point and strips the rest. That is what its `.*?$` patterns do on the one-line output of
  `clean_text`, but the patterns themselves are not modelled.
- TextCleaning.CleanTextIdempotent: assumes `unescape` and the tag removal leave already-cleaned
  text alone, because entity decoding is a parameter.
- psycopg2, SQL text, JSONB encoding, UUID and `created_at` generation, the indexes and the
  environment settings of `PostgresDB.__init__` are not modelled. A row is stored without its
  generated `id` and `created_at`.
- `PostgresDB.__enter__` / `__exit__` are not modelled: they only call `connect` and `disconnect`,
  which are.
- Calendar.IsoDateRoundTrip: stated for years 1000 to 9999 only, because only those print as the
  four-digit year that `Calendar.ParseIsoDate` reads.
- Calendar.ParseIsoDate: reads only the `YYYY-MM-DD` form with a four-digit year. PostgreSQL's
  `DATE` input also takes other forms (`January 8, 1999`, `19990108`, `1/8/1999`, `today`) and
  years past 9999; the model counts those strings as rejected. The scraper only ever stores dates
  that `strftime('%Y-%m-%d')` printed.
- Text.Upper: upper-cases ASCII letters only. Python's `str.upper` also maps other characters,
  for example `ſ` (U+017F) to `S`, so a heading such as `Faqſ` is the FAQ heading in the source
  but not in the model. Unicode case mapping is not modelled.
- Calendar.Shift: dates have unbounded years, while Python's `datetime` covers years 1 to 9999
  only. `end_date - timedelta(days=days_back)` (app/sources/sanskriti.py:315) raises
  `OverflowError` when the window would start outside that range (a `days_back` of about 739,000
  or more, or a large negative one). The model computes the shifted date instead.
- SanskritiSource.FetchArticles: does not model the `OverflowError` of such a window; it walks the
  window over out-of-range years as if they were representable.
- SyncSanskriti.Sync: for such a window the source logs "Sync failed" and disconnects
  (scripts/sync_sanskriti.py:117-122); the model reports `NoArticles` or `Completed` instead.
- SanskritiSource.DateUrlRoundTrip: stated for years from 0 on, because the negative years that
  `Date` allows do not exist in Python's `datetime`.
- Postgres.GetArticles: rows with equal `published_date` may come in any order, as in PostgreSQL
  without a tie-breaking `ORDER BY`. The model promises the order of dates only.
- The `ON CONFLICT DO NOTHING` branch is modelled, but only a concurrent writer could reach it;
  concurrency is not modelled (`Postgres.NoConflictAfterCleanCheck`).
- NewsSources.NewsSource.ValidateArticle: the `except Exception` branch is not modelled, because
  no check in the `try` can raise on an `Article`.
- The abstract `fetch_articles` and `parse_article` of `NewsSource` have no body to model.
- The `id` and `created_at` default factories of `Article` (a fresh UUID, the current time) are
  parameters of `NewArticle`.
- `app/sync.py`, the vector store (`app/db/qdrant.py`), the PIB source and `app/main.py` are not
  part of this model.
