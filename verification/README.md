# Document-ingestion pipeline of the history assistant, in Dafny

This project models the part of the history assistant that turns books and
documents into training text. It covers these components:

- **The file tracker** (`FileTracker`). It is a store of learned files, keyed
  by path. A file counts as learned when its stored hash equals the hash of
  its current bytes.
- **The incremental processor** (`IncrementalDataProcessor`). It runs one
  ingestion: it resolves the input to candidate files and keeps the new
  ones. Each new file is loaded, checked against two length thresholds and
  cleaned. Accepted files are recorded and marked learned, and the records
  are appended to the corpus.
- **The book metadata filter** (`BookMetadataFilter`). It applies pattern
  deletions, then line heuristics, then whitespace clean-up.
- **The loaders of `data_processing.py`**: the format dispatch, the encoding
  fallback, JSON flattening, the DOC and FB2 fallback chains, `clean_text`,
  and word chunking with overlap.
- **The PDF reader**: paragraph accumulation, the historical-content test,
  keyword classification and year-to-century mapping.
- **The alternative and OCR-assisted PDF extractors**, and the rules that
  choose between their results.
- **The question-answering front end**: keyword search, canned answers,
  random fact and category/period filters.
- **Training-data preparation**: field precedence for texts and labels.
- **The post-processing of generated text** in the English and the Russian
  model wrappers.

One Dafny module per source file, plus two shared modules:

| module | file | models |
|---|---|---|
| `Text` | text.dfy | Python string operations the pipeline relies on (`strip`, `split`, `join`, `re.sub(r'\s+', ' ', …)`, `Path.suffix`) and generic sequence lemmas (filters, subsequences) |
| `Json` | json.dfy | JSON values as `json.load` returns them, dict lookup, `str()` of numbers |
| `Files` | files.dfy | the file system as a value: files with optional bytes, directories, the MD5 digest as a given function |
| `FileTracking` | file_tracker.dfy | `src/file_tracker.py` |
| `Incremental` | incremental.dfy | `src/incremental_data_processing.py` |
| `MetadataFilter` | metadata_filter.dfy | `src/metadata_filter.py` |
| `DataProcessing` | data_processing.dfy | `src/data_processing.py` |
| `PdfReader` | pdf_reader.dfy | `src/pdf_reader.py` |
| `PdfAlternatives` | pdf_alternatives.dfy | `src/alternative_pdf_processing.py`, `src/improved_pdf_processing.py` |
| `HistoryQa` | history_qa.dfy | `src/simple_history_qa.py` |
| `TrainingData` | training_data.dfy | `src/train_model_old.py`, `src/train_model_incremental.py` (and its copy in `src/train_model.py`) |
| `GeneratedText` | generated_text.dfy | the post-decode parts of `src/models/history_ai.py` and `src/models/history_ai_ru.py` |

The model takes the shape the code has:

- Objects whose fields change are classes. This covers the tracker, the
  processor and the QA system.
- Loops that append to lists are methods with loop invariants. Each such
  method is proved equal to a specification function. The properties the
  code promises are proved about that function as lemmas.
- Pure conditionals and expression chains are functions.
- Libraries, the file system and subprocesses are oracles passed in as
  values:
  - `Disk` is the file system;
  - `Env` holds the codecs, PDF, DOC and FB2 libraries;
  - `Extraction` holds `load_file` and `clean_text` as the processor sees
    them;
  - page lists stand in for the PDF documents.

The code was followed where it differs from the intended behaviour:

- **The failure hash.** A file that cannot be read hashes to `""`, and `""`
  compares equal to `""`. So a record stored with the failure hash keeps
  matching while the file stays unreadable. `FileTracking.EmptyHashMatchesUnreadable`
  states this.
- **`_clean_result`.** Its second substitution can never apply, because the
  first one has already turned every newline into a space.
- **Early years.** `_extract_period` maps every year below 1000 to "X век",
  three-digit years of earlier centuries included.

## Model

| member | source | states |
|---|---|---|
| FileTracking.FileHash | src/file_tracker.py:65-81 | the MD5 digest of the file's bytes; "" exactly when the file cannot be read, instead of raising |
| FileTracking.FileTracker.constructor | src/file_tracker.py:32-52 | a missing or unreadable tracking file gives the empty store (no files, no last update, count 0); otherwise the stored files and last update |
| FileTracking.FileTracker.IsFileLearned | src/file_tracker.py:83-106 | false for a path with no record; for a recorded path, true iff the fresh hash equals the stored one |
| FileTracking.MarkedData | src/file_tracker.py:108-133 | the store after marking: unchanged when `stat()` raises; otherwise `p` is learned with the given length and every other path keeps its record or its absence |
| FileTracking.FileTracker.MarkFileAsLearned | src/file_tracker.py:108-133 | raises exactly for a missing file and then changes nothing; otherwise upserts only `p`'s record, sets the count to the number of records, and `p` stays learned on every disk where its bytes are the same |
| FileTracking.FileTracker.GetNewFiles | src/file_tracker.py:135-151 | exactly the inputs that are not learned, as an order-preserving subsequence of the inputs |
| FileTracking.FileTracker.GetLearnedFilesInfo | src/file_tracker.py:153-167 | the number of records, the sum of their text lengths, and the records |
| FileTracking.TotalTextLengthRemove | src/file_tracker.py:162-165 | the text-length sum does not depend on the order in which records are taken |
| FileTracking.TotalTextLengthUpsert | src/file_tracker.py:120-127 | writing one record changes the sum by the difference of the old and new lengths |
| FileTracking.FileTracker.ResetTracking | src/file_tracker.py:169-179 | back to the empty store: no files, no last update, count 0 |
| FileTracking.EmptyHashMatchesUnreadable | src/file_tracker.py:79-81 | a record stored with the failure hash "" is still learned while the file stays unreadable |
| Incremental.ResolveFiles | src/incremental_data_processing.py:50-64 | a list is used as is; a directory gives its entries with a supported lower-cased suffix; any other path gives itself alone; any other input type is the ValueError |
| Incremental.Candidate | src/incremental_data_processing.py:81-101 | a record exists iff loading succeeded, the stripped text has more than 200 characters and the stripped cleaned text more than 100; the record holds the file name, the cleaned text, both lengths and the path |
| Incremental.CandidateNotLoaded | src/incremental_data_processing.py:84 | an empty or failed load gives no record |
| Incremental.CandidateTooShort | src/incremental_data_processing.py:88 | a stripped text of at most 200 characters gives no record |
| Incremental.CandidateCleaned | src/incremental_data_processing.py:86-93 | past the first threshold, the cleaned text is `clean_text` of the stripped text, and the record exists iff its stripped form has more than 100 characters |
| Incremental.CandidateShape | src/incremental_data_processing.py:90-101 | given `clean_text`'s guarantees, a record's text is one line of more than 100 characters, without surrounding whitespace, and no longer than the loaded text |
| Incremental.CleanTextCleansToOneLine | src/data_processing.py:315-338 | the real `clean_text` meets those guarantees |
| Incremental.RecordsComplete | src/incremental_data_processing.py:76-102 | every accepted file's record is among the records |
| Incremental.RecordsNone | src/incremental_data_processing.py:75-126 | no accepted file gives no records |
| Incremental.ProcessStep | src/incremental_data_processing.py:76-120 | one loop step keeps the records and the tracker in line with the files seen so far |
| Incremental.MarkAllLearned | src/incremental_data_processing.py:102-109 | every recorded file that still exists ends up learned |
| Incremental.MarkAllUntouched | src/incremental_data_processing.py:102-120 | a file without a record keeps its tracker entry, or its absence |
| Incremental.AcceptedIsRecorded | src/incremental_data_processing.py:76-102 | a new file that passes the thresholds has a record with its path |
| Incremental.UnrecordedWasNew | src/incremental_data_processing.py:102-120 | a file that is unlearned after the run and has no record was unlearned before it, so rejected files are retried |
| Incremental.SecondRunFindsNothing | src/incremental_data_processing.py:66-71 | once a run's accepted files are marked, a second run over the same unchanged candidates records nothing |
| Incremental.Appended | src/incremental_data_processing.py:128-152 | the corpus becomes the stored records followed by the new ones (just the new ones when there was no file); a file that does not load, or loads as something other than a list, is left as it is |
| Incremental.TotalRecords | src/incremental_data_processing.py:164-171 | `len(data)` of whatever the corpus file loads as: the number of records of a list, the size of a document that is not a list, 0 when the file is absent or does not load |
| Incremental.AppendedCount | src/incremental_data_processing.py:143 | appending to an absent file or a list adds exactly the new records to the count and keeps the old ones as a prefix; any other corpus keeps its count |
| Incremental.IncrementalDataProcessor.constructor | src/incremental_data_processing.py:27-36 | the tracker starts from the stored data, or from the empty store when there is none |
| Incremental.IncrementalDataProcessor.ProcessNewFiles | src/incremental_data_processing.py:38-126 | ValueError for another input type, and then nothing changes; otherwise the result is the records of the accepted new files in order, exactly those files are marked, and the corpus is appended to only when the result is not empty |
| Incremental.IncrementalDataProcessor.ProcessFiles | src/incremental_data_processing.py:75-120 | the loop: the records of the accepted files in order, and the tracker after marking each of them; a file that raises does not stop the loop |
| Incremental.IncrementalDataProcessor.ProcessFile | src/incremental_data_processing.py:77-120 | one file: its record iff accepted, the tracker unchanged when rejected and marked when accepted |
| Incremental.IncrementalDataProcessor.UpdateProcessedDataFile | src/incremental_data_processing.py:128-152 | the corpus after the append |
| Incremental.IncrementalDataProcessor.GetProcessingStats | src/incremental_data_processing.py:154-178 | the learned-file count, the total text length, the corpus record count (`len` of the loaded document, 0 when the file is absent or does not load) and the tracking file |
| Incremental.IncrementalDataProcessor.ResetLearning | src/incremental_data_processing.py:180-187 | an empty tracker and no corpus file |
| MetadataFilter.ApplyPatterns | src/metadata_filter.py:120-129 | the pattern stages, applied in list order, only delete: the result is a subsequence of the text, never longer |
| MetadataFilter.SubstituteAll | src/metadata_filter.py:120-121 | the substitution loop equals the pattern stages applied in order |
| MetadataFilter.RatioAboveThreeTenths | src/metadata_filter.py:169-170 | the digit-ratio test above 0.3 is the integer test `10 * digits > 3 * length` |
| MetadataFilter.IsContentLineRatios | src/metadata_filter.py:160-178 | the content-line test is false for stripped lines under 20 characters, with more than 30% digits or more than 20% of `.,;:()[]{}`, and true otherwise |
| MetadataFilter.PublisherLines | src/metadata_filter.py:142-158 | the kept lines joined by newlines, never longer than the text |
| MetadataFilter.PublisherLinesMeans | src/metadata_filter.py:142-158 | the kept lines are input lines, unchanged and in order; a line is dropped iff it names a publisher and fails the content test |
| MetadataFilter.FilterPublisherLines | src/metadata_filter.py:142-158 | the loop gives exactly the kept lines |
| MetadataFilter.KeepLines | src/metadata_filter.py:147-156 | the line loop keeps exactly the lines the test accepts, unchanged and in their original order |
| MetadataFilter.ServiceLines | src/metadata_filter.py:180-206 | the stripped, non-empty lines that are not service lines, never longer than the text |
| MetadataFilter.FilterServiceLines | src/metadata_filter.py:180-206 | the loop gives exactly those lines, and every line of the result is non-empty, stripped and not a service line |
| MetadataFilter.KeptServiceLinesSplit | src/metadata_filter.py:204-206 | the joined result splits back into the kept lines |
| MetadataFilter.KeptServiceLinesClean | src/metadata_filter.py:185-204 | every kept line has no newline, is stripped and passes the service-line test: non-empty, not digits-and-punctuation only, not uppercase and under 50 characters, not a bare date |
| MetadataFilter.StrippedPieceIsClean | src/metadata_filter.py:182-186 | a stripped line of a split text has no newline and strips to itself |
| MetadataFilter.CleanResult | src/metadata_filter.py:208-220 | the result has no newline, no whitespace but single plain spaces, no leading or trailing whitespace, and is no longer than the input |
| MetadataFilter.Filtered | src/metadata_filter.py:103-140 | empty input is returned as it is; otherwise the stages run in order, and the result is a single trimmed line no longer than the input |
| MetadataFilter.FilterMetadata | src/metadata_filter.py:103-140 | the method equals the staged filter |
| MetadataFilter.GetFilteredStatistics | src/metadata_filter.py:222-229 | both lengths, removed = original − filtered, percentage 0 for an empty original and between 0 and 100 when the text did not grow |
| DataProcessing.Latin1Decode | src/data_processing.py:23-26 | latin-1 maps each byte to the code point of the same value, so it never fails |
| DataProcessing.FirstDecoding | src/data_processing.py:16-29 | the first encoding in order that decodes the bytes, with its text; none only when all fail |
| DataProcessing.UniversalNewlines | src/data_processing.py:19-20 | text-mode reading leaves no carriage return and never lengthens the text |
| DataProcessing.Latin1Fallback | src/data_processing.py:23-29 | trying UTF-8, cp1251 and then latin-1 always succeeds, so the ValueError is unreachable |
| DataProcessing.LoadTxt | src/data_processing.py:16-29 | raises exactly when the file cannot be opened; otherwise the text of the first encoding that decodes it |
| DataProcessing.StrPayloads | src/data_processing.py:51-53 | the payloads of the `str` values, in order, one per string value |
| DataProcessing.Values | src/data_processing.py:51 | a dict's values in insertion order |
| DataProcessing.JsonTextSplits | src/data_processing.py:50-53 | the joined text of a dict or list splits back into its string values when none contains a space |
| DataProcessing.JsonText | src/data_processing.py:50-55 | `str()` of a document that is neither dict nor list; for a dict or list, "" without `str` members, otherwise their total length plus one space between each two |
| DataProcessing.JsonTextMembers | src/data_processing.py:50-53 | the k-th `str` member sits in the text at its offset, followed by a single space unless it is the last |
| DataProcessing.JsonTextIgnoresKeys | src/data_processing.py:50-51 | a dict gives the same text as the list of its values: keys never contribute |
| DataProcessing.LoadJson | src/data_processing.py:43-58 | "" when the file cannot be read, is not valid UTF-8 or does not parse; otherwise the text of the parsed document |
| DataProcessing.PlumberText | src/data_processing.py:65-75 | each non-empty page followed by a newline; empty exactly when every page is blank |
| DataProcessing.PypdfText | src/data_processing.py:77-88 | every page followed by a newline; empty exactly when there are no pages |
| DataProcessing.LoadPdf | src/data_processing.py:60-90 | pdfplumber's text when it gives any; PyPDF2's otherwise |
| DataProcessing.BlankOut | src/data_processing.py:139-161 | the non-text characters become spaces, length kept |
| DataProcessing.BlankOutChars | src/data_processing.py:139-161 | every character left is a text character or whitespace |
| DataProcessing.SanitizeDoc | src/data_processing.py:139-162 | single plain spaces between text characters, trimmed |
| DataProcessing.SanitizeDocChars | src/data_processing.py:139-140 | every character of the sanitised text is a text character or a space |
| DataProcessing.FirstOleText | src/data_processing.py:131-145 | the sanitised text of the first stream that is a text stream, reads, and gives more than 100 characters, every earlier stream failing one of these; none exactly when no stream qualifies |
| DataProcessing.OleText | src/data_processing.py:125-150 | an OLE result has more than 100 characters and is sanitised |
| DataProcessing.RawDocText | src/data_processing.py:152-166 | the raw-bytes result has more than 100 characters and is sanitised |
| DataProcessing.LoadDoc | src/data_processing.py:92-173 | each step of the chain: antiword's output when it exits with 0, even empty; a crashed antiword or catdoc gives ""; then catdoc's output on exit 0; then docx2txt's text whatever its length; then the OLE text; then the raw-bytes text or "" |
| DataProcessing.LoadDocFallback | src/data_processing.py:125-173 | when neither program nor docx2txt gives the text, the result is "" or a sanitised text of more than 100 characters |
| DataProcessing.FirstFb2Entry | src/data_processing.py:224-231 | the first archive entry ending in ".fb2" or without a dot; none iff no entry qualifies |
| DataProcessing.CollapseBlanks | src/data_processing.py:275 | runs of spaces and tabs become one space; no tab is left |
| DataProcessing.DropBlanks | src/data_processing.py:274 | a suffix of the text that does not start with a space or tab |
| DataProcessing.SpaceRun | src/data_processing.py:274 | the length of the longest whitespace prefix |
| DataProcessing.Fb2Text | src/data_processing.py:252-278 | the text made of the parsed parts is trimmed and has no tab |
| DataProcessing.Fb2FromMarkup | src/data_processing.py:248-278 | "" when BeautifulSoup raises on the markup, otherwise the text of what it parsed |
| DataProcessing.Fb2DecodeOrder | src/data_processing.py:237-246 | decoding always succeeds, with UTF-8 when it decodes, else cp1251 when it decodes, else latin-1 |
| DataProcessing.LoadFb2 | src/data_processing.py:212-286 | "" when there is no FB2 content; otherwise the text of the content decoded as UTF-8, else cp1251, else latin-1; always trimmed and without tabs |
| DataProcessing.NoTabAfterStrip | src/data_processing.py:275-278 | stripping a text whose tabs are all gone keeps it tab-free |
| DataProcessing.LoadFb2NoEntry | src/data_processing.py:224-227 | an archive without an FB2 entry gives "" |
| DataProcessing.LoadDocx | src/data_processing.py:175-191 | raises exactly when python-docx is missing and docx2txt raises; python-docx failing gives ""; docx2txt's text without python-docx, "" without either; newline-free paragraphs split back out of the text |
| DataProcessing.LoadFile | src/data_processing.py:288-313 | dispatch on the lower-cased suffix to each of the eight loaders, "" for an unknown suffix; only ".txt" and ".docx" can raise |
| DataProcessing.CleanText | src/data_processing.py:315-338 | no newline, no leading or trailing whitespace, only plain spaces, only word characters, spaces and `.,!?;:-()`, never longer than the input, on both paths: with the metadata filter, and without it when its import fails or it raises |
| DataProcessing.CleanFiltered | src/data_processing.py:329-338 | the same after the metadata filter |
| DataProcessing.CleanFilteredKeepsText | src/data_processing.py:329-338 | the non-whitespace characters of the result are exactly the allowed non-whitespace characters of the input, in order: only whitespace is rewritten and only disallowed characters are deleted |
| DataProcessing.CleanTextKeepsText | src/data_processing.py:315-338 | the same for `clean_text`, measured against the text the metadata filter leaves, or against the input itself when the filter is missing or raises |
| DataProcessing.DropCharsAndBlankLines | src/data_processing.py:333-338 | the steps after the whitespace collapse keep the text single-line and trimmed |
| DataProcessing.StripOneLine | src/data_processing.py:336-338 | stripping line by line and then the whole is plain stripping on a single line |
| DataProcessing.CleanTextShape | src/data_processing.py:329-338 | the composed `clean_text` stages give the shape above |
| DataProcessing.SplitTextIntoChunks | src/data_processing.py:340-350 | a chunk size equal to the overlap is the ValueError of `range`; a smaller chunk size gives no chunks; a larger one gives the chunk specification |
| DataProcessing.CollectChunks | src/data_processing.py:345-349 | the loop over word positions keeps exactly the non-blank windows, in order |
| DataProcessing.ChunksFromCount | src/data_processing.py:345-349 | from word `i` on there are ⌈(n − i) / step⌉ chunks |
| DataProcessing.ChunksFromAt | src/data_processing.py:345-349 | the k-th chunk from word `i` starts at word `i + k·step` |
| DataProcessing.ChunkNotBlank | src/data_processing.py:346-348 | with a positive chunk size, the window at a word position is never blank |
| DataProcessing.ChunkWords | src/data_processing.py:346 | a window splits back into at most `chunk_size` words from its start |
| DataProcessing.ChunkContents | src/data_processing.py:340-350 | for `chunk_size > overlap`: ⌈n / step⌉ chunks, the k-th being the words from k·step on, at most `chunk_size` of them, never empty |
| DataProcessing.ChunkCoverage | src/data_processing.py:345-349 | with a non-negative overlap every word lies in some chunk's window |
| DataProcessing.ChunksOfBlank | src/data_processing.py:343-350 | an empty or blank text gives no chunks |
| PdfReader.ReadPdfCheck | src/pdf_reader.py:35-39 | FileNotFoundError iff the path does not exist; ValueError iff it exists and its lower-cased suffix is not ".pdf" |
| PdfReader.Sentences | src/pdf_reader.py:126 | `re.split` on runs of terminators: pieces with no terminator |
| PdfReader.SentencesLoseTerminators | src/pdf_reader.py:126 | the pieces concatenated are the text with every '.', '!' and '?' removed |
| PdfReader.GroupEndsWithDot | src/pdf_reader.py:132-146 | every paragraph is non-empty and ends with "." |
| PdfReader.GroupLongParagraphs | src/pdf_reader.py:137-142 | every paragraph but the last has at least 100 characters |
| PdfReader.GroupKeepsSentences | src/pdf_reader.py:132-146 | no sentence is lost, reordered or changed: the paragraphs, each followed by a space, spell out every non-blank stripped sentence followed by ". " |
| PdfReader.ParagraphsShape | src/pdf_reader.py:120-148 | the three paragraph properties together |
| PdfReader.SplitIntoParagraphs | src/pdf_reader.py:120-148 | the method equals the paragraph specification |
| PdfReader.AddSentence | src/pdf_reader.py:133-142 | one iteration: the paragraph closed, if any, and the new open paragraph, consistent with the specification |
| PdfReader.GroupLoop | src/pdf_reader.py:132-142 | the loop's paragraphs, followed by the flush of what remains open, are the specification's paragraphs |
| PdfReader.GroupSentences | src/pdf_reader.py:129-148 | the loop and the final flush equal the specification |
| PdfReader.IsHistoricalMeans | src/pdf_reader.py:163-174 | true iff (two different keywords occur in the lower-cased text, or a year mention occurs) and the text is longer than 50 |
| PdfReader.ClassifyByTable | src/pdf_reader.py:176-193 | the chain of tests is a lookup in the category table, in the order war, reforms, politics, religion, revolution, culture |
| PdfReader.FirstCategoryWins | src/pdf_reader.py:180-193 | the chosen category's keyword occurs and no earlier category's does; "общее" means none does |
| PdfReader.ClassifyFirstMatch | src/pdf_reader.py:176-193 | the label of the first category in table order with a keyword in the text, and "общее" exactly when none |
| PdfReader.FirstCentury | src/pdf_reader.py:198 | the leftmost "N век" match, if any |
| PdfReader.FirstYear | src/pdf_reader.py:204 | the leftmost "NNN(N) год" match, if any |
| PdfReader.PeriodOfYearRoman | src/pdf_reader.py:209-228 | every year from 1000 to 1999 maps to the Roman numeral of its century |
| PdfReader.PeriodOfYearMeans | src/pdf_reader.py:204-230 | below 1000 "X век", 1000-1999 the numeral of the century, from 2000 "XXI век" |
| PdfReader.ExtractPeriodMeans | src/pdf_reader.py:195-232 | a century mention wins over any year, the leftmost one; else the leftmost year's century; else "неизвестно" |
| PdfAlternatives.KeepPage | src/alternative_pdf_processing.py:47-51 | a page's text is kept iff it is not blank |
| PdfAlternatives.CollectPages | src/alternative_pdf_processing.py:41-51 | the non-blank page texts in page order, or none as soon as a page raises |
| PdfAlternatives.ExtractPages | src/alternative_pdf_processing.py:22-98 | both extractors: the non-blank pages joined by a blank line; none on an exception or when no page has text |
| PdfAlternatives.JoinedPagesKeep | src/alternative_pdf_processing.py:47-56 | a result exists iff some page is not blank; the joined pages are exactly the non-blank ones |
| PdfAlternatives.PickedKept | src/alternative_pdf_processing.py:47-48 | every kept page is non-blank |
| PdfAlternatives.Best | src/alternative_pdf_processing.py:126 | the first candidate of maximal length |
| PdfAlternatives.ChooseBest | src/alternative_pdf_processing.py:125-133 | a result is one of the three candidates, unchanged, of maximal length, the first among ties, longer than 100; none iff every candidate has at most 100 characters |
| PdfAlternatives.AlternativePdfProcessing | src/alternative_pdf_processing.py:100-133 | the three extractions, then that choice |
| PdfAlternatives.OcrFirstPages | src/improved_pdf_processing.py:44-46 | pages after the fifth make no difference |
| PdfAlternatives.PageContribution | src/improved_pdf_processing.py:50-75 | a page gives its native text if not blank, else its OCR text if not blank, else nothing |
| PdfAlternatives.CollectContributions | src/improved_pdf_processing.py:46-75 | the contributions in page order, or none when a page's native text raises |
| PdfAlternatives.ExtractTextWithOcr | src/improved_pdf_processing.py:22-89 | the contributions of at most five pages joined by a blank line; none without libraries or contributions |
| PdfAlternatives.Fallback | src/improved_pdf_processing.py:104-122 | a base text over 1000 is returned as it is; otherwise the OCR text exactly when it is strictly longer; else the base text if not empty; none when both are empty |
| PdfAlternatives.ImprovedPdfProcessing | src/improved_pdf_processing.py:91-122 | the method equals that rule over the OCR extraction |
| HistoryQa.SearchMeans | src/simple_history_qa.py:51-61 | the hits are the matching records, all of them, as an order-preserving subsequence of the data; a blank query gives none |
| HistoryQa.AnyOccurs | src/simple_history_qa.py:58 | true iff some word occurs in the text |
| HistoryQa.SimpleHistoryQa.constructor | src/simple_history_qa.py:18-39 | the records read from the data file, or none when it is missing or unreadable |
| HistoryQa.SimpleHistoryQa.SearchByKeywords | src/simple_history_qa.py:41-61 | the loop equals the search specification |
| HistoryQa.AnswerFromMeans | src/simple_history_qa.py:104-106 | the inner loop returns the first answer whose key occurs in the question, and none iff no key occurs |
| HistoryQa.CannedFromMeans | src/simple_history_qa.py:101-106 | the nested loops return the answer of the first (topic, answer key) pair in declaration order whose two keys both occur, and none iff there is no such pair |
| HistoryQa.SimpleHistoryQa.FindAnswer | src/simple_history_qa.py:104-106 | the inner loop equals its specification |
| HistoryQa.AnswerMeans | src/simple_history_qa.py:101-117 | a canned answer wins; else "Согласно историческим данным: " with the first hit's text; else the fixed apology |
| HistoryQa.SimpleHistoryQa.AnswerQuestion | src/simple_history_qa.py:63-117 | the method equals the answer specification |
| HistoryQa.SimpleHistoryQa.RandomFact | src/simple_history_qa.py:119-125 | the fixed message on empty data; otherwise some record's text after the prefix, any record being possible |
| HistoryQa.FactsWhereMeans | src/simple_history_qa.py:137-157 | a text is listed iff some accepted record has it; no more texts than records |
| HistoryQa.MissingFields | src/simple_history_qa.py:139-155 | a missing category or period counts as "": listed only for the empty category, and only for the empty period |
| HistoryQa.SimpleHistoryQa.GetFactsByCategory | src/simple_history_qa.py:127-141 | the texts of the records whose category equals the given one, case-insensitively, in order |
| HistoryQa.SimpleHistoryQa.GetFactsByPeriod | src/simple_history_qa.py:143-157 | the texts of the records whose period contains the given one, case-insensitively, in order |
| TrainingData.FirstLongString | src/train_model_old.py:134-137 | the first value in entry order that is a string longer than 10; none iff there is none |
| TrainingData.FindLongString | src/train_model_old.py:134-137 | the loop with its break equals that choice |
| TrainingData.ItemText | src/train_model_old.py:126-137 | the text precedence 'text', 'content', 'description', then the first long string |
| TrainingData.ItemLabel | src/train_model_old.py:140-148 | the label precedence 'label', 'category', 'class', then 0 |
| TrainingData.PreparedMeans | src/train_model_old.py:123-154 | texts come only from dicts, in order, at most one per dict, and every 'text' value is among them; in classification mode one label per dict, so at least as many labels as texts; otherwise no labels |
| TrainingData.PreparedAppend | src/train_model_old.py:123-137 | the texts of two batches are those of each, in batch order |
| TrainingData.PrepareTrainingData | src/train_model_old.py:109-154 | the method equals the preparation specification, including the all-zero labels when none were found |
| TrainingData.ExtractedTexts | src/train_model_incremental.py:59-67 | no more texts than items, each from a dict's 'text' or a string item; every string item is kept; a list of strings comes back unchanged |
| TrainingData.ExtractedAppend | src/train_model_incremental.py:60-64 | the texts of two batches are those of each, in batch order |
| TrainingData.ExtractTextsFromData | src/train_model_incremental.py:49-67 | the loop equals the extraction specification (also `src/train_model.py:46-64`) |
| GeneratedText.StripPrompt | src/models/history_ai.py:176-177 | when the output starts with the prompt, the stripped rest, no longer than it; otherwise the output unchanged |
| GeneratedText.StripPromptEcho | src/models/history_ai_ru.py:153-155 | an output that echoes the prompt gives the stripped continuation |
| GeneratedText.FinishGenerationMeans | src/models/history_ai.py:176-185 | the fixed message when the stripped remainder has fewer than 10 characters; otherwise the remainder is non-empty and is cleaned |
| GeneratedText.DedupNoRepeat | src/models/history_ai.py:206-213 | no two adjacent kept words are equal |
| GeneratedText.DedupSubsequence | src/models/history_ai.py:206-213 | the kept words are a subsequence of the words |
| GeneratedText.DedupFirst | src/models/history_ai.py:208-213 | a non-empty first word is always kept |
| GeneratedText.DedupFixpoint | src/models/history_ai.py:206-213 | words without an adjacent repeat are kept as they are |
| GeneratedText.CleanedWordsMeans | src/models/history_ai.py:199-213 | the kept words are proper words of allowed characters, with no adjacent repeat, a subsequence of the regex-cleaned words, and the first one is kept |
| GeneratedText.JoinedWordsShape | src/models/history_ai.py:215 | words joined by single spaces form a trimmed string that splits back into them |
| GeneratedText.CleanGeneratedShape | src/models/history_ai.py:200-215 | the result is the kept words separated by single spaces, with no other whitespace, and splitting it gives them back |
| GeneratedText.CleanGeneratedIdempotent | src/models/history_ai.py:194-215 | cleaning a cleaned text changes nothing |
| GeneratedText.DropRepeatedWords | src/models/history_ai.py:206-213 | the `prev_word` loop equals the deduplication specification |
| GeneratedText.CleanGeneratedText | src/models/history_ai.py:194-215 | the method equals the cleaning specification |
| GeneratedText.UniqueDistinct | src/models/history_ai_ru.py:172-177 | kept sentences are non-empty and pairwise distinct |
| GeneratedText.UniqueMembers | src/models/history_ai_ru.py:172-177 | a value is kept iff it is non-empty and some piece strips to it |
| GeneratedText.UniqueOrder | src/models/history_ai_ru.py:173-177 | kept sentences come in the order of their first occurrence |
| GeneratedText.UniqueSentencesTrimmed | src/models/history_ai_ru.py:175 | kept sentences are stripped |
| GeneratedText.UniqueNoStop | src/models/history_ai_ru.py:172-177 | pieces split on "." give sentences without a full stop |
| GeneratedText.BlankHasNoSentence | src/models/history_ai_ru.py:169-177 | a blank text has no sentence to keep |
| GeneratedText.JoinedSentencesOpen | src/models/history_ai_ru.py:180 | sentences without a full stop, joined by ". ", do not end with one |
| GeneratedText.CleanRuMeans | src/models/history_ai_ru.py:166-186 | blank input gives ""; otherwise the kept sentences joined by ". " and always followed by a final "." |
| GeneratedText.KeepUniqueSentences | src/models/history_ai_ru.py:173-177 | the loop with its membership check equals the specification |
| GeneratedText.CleanRuText | src/models/history_ai_ru.py:166-186 | the method equals the Russian cleaning specification |
| GeneratedText.FinishGenerationRu | src/models/history_ai_ru.py:153-158 | a blank continuation after the prompt gives ""; any other result ends with "." |
| Text.Strip | src/metadata_filter.py:162 | `str.strip()`: a trimmed slice of the input, empty iff the input is blank |
| Text.StripIdempotent | src/models/history_ai_ru.py:169-175 | stripping twice is stripping once |
| Text.CollapseSpaces | src/metadata_filter.py:211 | `re.sub(r'\s+', ' ', …)`: only single plain spaces remain, never longer |
| Text.CollapseKeepsText | src/data_processing.py:329 | the collapse keeps every non-whitespace character, in order |
| Text.StripKeepsText | src/data_processing.py:338 | `strip()` keeps every non-whitespace character, in order |
| Text.KeepCharsIsFilter | src/data_processing.py:332 | deleting the characters a class does not allow keeps exactly those it allows, in order |
| Text.FirstWhere | src/data_processing.py:131-145 | the index of the first element satisfying the test, none exactly when no element does |
| Text.CollapseFixpoint | src/models/history_ai.py:200 | a text with only single plain spaces is unchanged |
| Text.SplitOn | src/metadata_filter.py:144 | `split('\n')`: at least one piece, none containing the separator |
| Text.SplitOnJoin | src/metadata_filter.py:144-158 | joining the pieces with the separator gives the text back |
| Text.JoinSplitOn | src/metadata_filter.py:158 | splitting joined separator-free pieces gives them back |
| Text.Words | src/data_processing.py:343 | `split()`: non-empty words without whitespace |
| Text.StripLinesShorter | src/data_processing.py:336 | stripping lines and dropping blank ones never lengthens a text |
| Text.Suffix | src/pdf_reader.py:38 | `Path.suffix`: empty, or a dot followed by at least one character |
| Text.JoinPieceAt | src/data_processing.py:51 | `sep.join(parts)` holds each part at its offset: after the earlier parts and one separator after each |
| Text.JoinSepAfter | src/data_processing.py:51 | in `sep.join(parts)` every part but the last is followed by the separator |

## Left out

- Input and output are values, not actions:
  - The tracking file, the corpus file and the data files are values.
  - Writing the tracking file after each change is not modelled. Neither is
    writing or deleting the corpus file, nor the errors that writing would
    log.
  - Logging is not modelled.
  - `mkdir` in the constructors is not modelled.
- The libraries are given functions, and their internals are not modelled:
  the codecs, `json`, pandas, pdfplumber, PyPDF2, PyMuPDF, pytesseract and
  PIL, python-docx, docx2txt, olefile, the antiword and catdoc programs,
  `zipfile` and BeautifulSoup. The same goes for `load_csv_file` and
  `load_djvu_file`, which only hand a file to a library.
- `load_pdf_file`: PyPDF2's pages are taken as the texts the library gives;
  a `None` page from it, which would raise on `+`, is not modelled.
- The metadata, ISBN and copyright patterns (src/metadata_filter.py:24-101)
  are not spelled out. Each pattern is a mask of what it matches, and the
  matched characters are deleted.
- Python's Unicode character classes are approximated by ASCII plus the
  basic Cyrillic block. This covers `isspace`, `isdigit`, `isupper`, `\w`
  and `lower()`.
- Floating point: the ratio tests of `_is_content_line` are the equivalent
  integer comparisons.
- GetFilteredStatistics: `removal_percentage` is an exact real, without
  `round(…, 2)`.
- `re.split(r'[.!?]+', …)` in `_split_into_paragraphs` is written out as a
  split on maximal runs of terminators. The `\s+` collapse before it is the
  same collapse as elsewhere.
- `_extract_period` and `_is_historical_content` match their regular
  expressions through explicit digit scanners, not a regex engine. `\b` is
  taken between a word character and a non-word character, with word
  characters being ASCII plus basic Cyrillic, as above.
- Incremental.CorpusFile: the items of a corpus list are taken to be records
  of the shape this pipeline writes. A list holding other JSON values would
  be counted and extended in the same way.
- HistoryQa: a record without a `text` key (a `KeyError` in the source) and
  a data file that does not hold a list are not modelled. Records carry a
  text.
- HistoryQa.SimpleHistoryQa.RandomFact: `random.choice` is a `pick`
  parameter. The contract says some record is chosen, not that the choice
  is uniform.
- TrainingData.PrepareTrainingData: the fallback to `[0] * len(texts)` is
  modelled as written. It can only give an empty list, because every dict
  adds a label.
- The rest of the training scripts is not modelled: tokenizer, datasets,
  Trainer and the evaluation split. Neither is model loading or generation.
  Only the post-decode part of `generate_text` is modelled, without its
  exception messages.
- `src/train_model.py:46-64` is the same function as
  `extract_texts_from_data`. It is modelled once.
- Paths are strings. `str(Path(p))` normalisation is not modelled.
- The `learned_at` and `last_update` fields hold the working directory, a
  `cwd` parameter, and carry no logic.
