# Code review report generator: a Dafny model

The system takes uploaded source files to a language model for review and
renders the review as a PDF report. This project models the parts of it that
compute something:

- **The report renderer** (`services/pdf_generator.py`). It turns the file
  records, the review text and the metadata map into an ordered list of layout
  blocks. Its stages are:
  - the emphasis cleaner `_clean_markdown_bold`: two regular-expression
    substitutions, written out by hand as a left-to-right scan with a lazy
    group that never crosses a line break;
  - the header splitter `_split_by_headers`: `re.split` with a capturing group,
    written out as a scan, followed by the index-step-2 gluing loop;
  - the section renderer `_process_section`: line classification, the
    paragraph accumulator, headings, bullets and blank lines;
  - the review pass `_parse_markdown_content`;
  - the file listing `_add_file_contents_section`, with its 2000-character and
    50-line caps;
  - the four-row metadata table `_add_metadata_section`;
  - the assembly and file naming in `generate_report`.
- **Two pure pieces of the LLM client** (`services/llm_client.py`):
  - the prompt builder `_build_review_prompt`;
  - the mapping from a decoded response, or a caught exception, to the result
    record `{success, error, review, metadata}`.
- **The two sample programs**:
  - the C++ `DataProcessor` class: append, sort in place, and sum in a 32-bit
    `int`, plus the scenario in `main`;
  - the recursive `calculate_fibonacci`.

## Modules

| file | module | form |
|---|---|---|
| `strings.dfy` | Strings | `str.strip` over Python's whitespace set, `split` on one character, `join`, `str(int)`, `f"{n:,}"`, zero-padded fields, and sequence lemmas |
| `layout.dfy` | Layout | `Block` datatype for reportlab flowables; block-counting functions |
| `emphasis.dfy` | Emphasis | pure functions and lemmas |
| `headers.dfy` | HeaderSplit | the split as a function; the gluing loop as a method with invariants |
| `sections.dfy` | SectionRender | the line loop as methods, proved against a reference `Render`; the section loop as a method |
| `files.dfy` | FileListing | nested loops as a method, proved against `Listing` |
| `metadata.dfy` | MetadataTable | the append sequence as a method, proved against `MetadataSection` |
| `clock.dfy` | Clock | `strftime` layouts and their inverses |
| `report.dfy` | ReportAssembly | `generate_report` as a method, proved against `ReportStory` |
| `prompt.dfy` | ReviewPrompt | the prompt loop as a method, proved against `Prompt` |
| `response.dfy` | ReviewResponse | pure functions and lemmas over an abstract response record |
| `dataprocessor.dfy` | DataProcessorSample | a class with a `seq<int32>` field and `modifies` clauses |
| `fibonacci.dfy` | FibonacciSample | functions and lemmas |

## Where the model follows the code rather than the description

- **Triple stars.** Bold runs before italic, so `***x***` gives the crossed
  tags `<b><i>x</b></i>`, not nested ones (`Emphasis.CleanTripleStars`).
- **Emphasis is cleaned twice.** It is applied to the whole review before
  splitting (pdf_generator.py:199), and again to every paragraph and bullet
  (:316-348).
  - On a single line the second pass changes nothing
    (`Emphasis.CleanTwiceOnLine`).
  - A paragraph is cleaned after its lines are joined with spaces, so a span
    can open on one line and close on the next
    (`SectionRender.ParagraphJoinsSpans`).
- **Header markers end the previous chunk.** The split marker is glued to the
  END of the text before it (`"text\n##"`).
  - The header's title therefore opens the next chunk as ordinary text.
  - Each chunk but the last ends with a `##`/`###` line, which renders as a
    heading with an empty title (`HeaderSplit.SplitChunks`).
- **The `###` branch of `_process_section` is dead.** The `##` test is made
  first, so a `###` line becomes a first-level heading
  (`SectionRender.ClassifyFacts`).
- **Blank file lines.** A whitespace-only line of a listed file becomes a
  spacer, not an empty code line.
- **File sizes.** The size is digit-grouped (`:,`) in the report listing but
  printed plain in the prompt.
- **Decoding errors.** Whether a JSON decoding error from the response body
  reaches the `JSONDecodeError` handler or the `RequestException` handler
  depends on the installed `requests` version. The model treats each handler
  as its own outcome (`Exchange`).

## Model

| member | source | states |
|---|---|---|
| Strings.LStripFacts | services/pdf_generator.py:312 | the left strip is the suffix after a whitespace-only prefix, and starts with a non-space character unless empty |
| Strings.RStripFacts | services/pdf_generator.py:312 | the right strip is the prefix before a whitespace-only suffix, and ends with a non-space character unless empty |
| Strings.StripFacts | services/pdf_generator.py:312 | `strip()` is no longer than its input and is empty exactly for whitespace-only text; otherwise it starts and ends with a non-space character; text that already does is left alone |
| Strings.StripIdempotent | services/pdf_generator.py:297-303 | stripping twice equals stripping once |
| Strings.Split | services/pdf_generator.py:308 | `split('\n')` returns at least one piece, no piece holds the separator, and joining the pieces with it gives the input back |
| Strings.SplitJoin | services/pdf_generator.py:308 | splitting a join of separator-free pieces gives the pieces back |
| Strings.NatToStringRoundTrip | services/pdf_generator.py:217 | `str(n)` read back as digits gives `n` |
| Strings.IntToStringInjective | services/pdf_generator.py:219 | different integers have different `str` texts |
| Strings.FormatThousandsDigits | services/pdf_generator.py:252 | `f"{i:,}"` with its commas removed is `str(i)` |
| Emphasis.FindClose | services/pdf_generator.py:127-128 | the lazy group's closing delimiter, when found, occurs at the returned offset with no line break before it |
| Emphasis.FindCloseIsFirst | services/pdf_generator.py:127-128 | the found delimiter is the first one after the opener; when none is found, none occurs before the next line break |
| Emphasis.CleanWithoutStars | services/pdf_generator.py:125-129 | text without `*` is returned unchanged |
| Emphasis.CleanBoldSpan | services/pdf_generator.py:127 | `**x**` with plain `x` becomes `<b>x</b>` |
| Emphasis.CleanTwoBoldSpans | services/pdf_generator.py:127 | `**x**y**z**` gives two bold spans with `y` between them, because the group is non-greedy |
| Emphasis.CleanBoldThenItalic | services/pdf_generator.py:127-128 | `**x**y*z*` gives a bold span around `x` and an italic span around `z` |
| Emphasis.CleanItalicSpan | services/pdf_generator.py:127-128 | `x*y*z` with plain parts: the bold pass leaves it alone and the italic pass wraps exactly `y` |
| Emphasis.BoldTripleStars | services/pdf_generator.py:127 | the bold pass turns `***x***` into `<b>*x</b>*` |
| Emphasis.CleanTripleStars | services/pdf_generator.py:127-128 | `***x***` becomes the crossed `<b><i>x</b></i>` |
| Emphasis.SubstitutePerLine | services/pdf_generator.py:127-128 | each substitution works line by line: on `a + "\n" + b` it is the result on `a`, a line break, and the result on `b` |
| Emphasis.CleanPerLine | services/pdf_generator.py:125-129 | no span crosses a line break: cleaning `a + "\n" + b` cleans `a` and `b` separately |
| Emphasis.CleanKeepsLine | services/pdf_generator.py:125-129 | a cleaned line is still one line |
| Emphasis.CleanLines | services/pdf_generator.py:125-129 | the lines of the cleaned text are the cleaned lines of the text, one for one |
| Emphasis.ItalicLeavesOneStar | services/pdf_generator.py:128 | after the italic pass a line holds at most one `*` |
| Emphasis.OneStarUnchanged | services/pdf_generator.py:127-128 | text with at most one `*` passes through either substitution unchanged |
| Emphasis.CleanTwiceOnLine | services/pdf_generator.py:125-129 | cleaning a line a second time changes nothing |
| HeaderSplit.BoundaryAt | services/pdf_generator.py:294 | a match of `\n(#{2,3})\s+` captures `##` or `###`, consumes at least one whitespace character after it, and stops only where the whitespace ends |
| HeaderSplit.BoundaryExactly | services/pdf_generator.py:294 | a match starts at `p` exactly when there is a line break, then a run of exactly two or three `#`, then whitespace; the marker is that run and the match covers all the whitespace after it |
| HeaderSplit.BoundaryExamples | services/pdf_generator.py:294 | `"\n##x"`, `"\n####x"` and `"\n#### x"` are not split points; `"\n## x"` and `"\n### \n\tx"` are, with the markers and match ends given |
| HeaderSplit.Scan | services/pdf_generator.py:294 | the split alternates text pieces and markers, starting and ending with text |
| HeaderSplit.MatchTextAt | services/pdf_generator.py:294 | the text a match consumes is a line break, the captured marker, then only whitespace |
| HeaderSplit.EvensOdds | services/pdf_generator.py:294 | an alternating split is its text pieces at the even indices and its markers at the odd ones, one more piece than markers |
| HeaderSplit.ScanRebuilds | services/pdf_generator.py:294 | the text pieces of a scan, glued back together in order with the text each match consumed, give back the scanned text |
| HeaderSplit.ScanTextsUnmatched | services/pdf_generator.py:294 | when no match starts before the scan position, no text piece holds a match of the pattern, and no piece after a match starts with whitespace |
| HeaderSplit.ReSplitPieces | services/pdf_generator.py:294 | `re.split` of the review alternates text and markers, its pieces and the matched texts give the review back in order, and the matches are the leftmost ones with greedy `\s+` |
| HeaderSplit.ReSplitWhole | services/pdf_generator.py:294 | the split leaves the text whole exactly when no match starts anywhere in it |
| HeaderSplit.NoLineBreakNoBoundary | services/pdf_generator.py:294 | text without a line break has no split point |
| HeaderSplit.HeaderOnFirstLine | services/pdf_generator.py:294 | a header on the first line with nothing after it is not split |
| HeaderSplit.GluePieces | services/pdf_generator.py:295-304 | the step-2 loop returns the pieces glued as `Chunks` describes |
| HeaderSplit.SplitByHeaders | services/pdf_generator.py:293-304 | `_split_by_headers` is the split followed by the gluing |
| HeaderSplit.GluedIsStripped | services/pdf_generator.py:300-301 | a stripped piece glued to a stripped marker is already stripped |
| HeaderSplit.ChunksStripped | services/pdf_generator.py:296-303 | every chunk is non-empty and stripped |
| HeaderSplit.ChunksConcat | services/pdf_generator.py:296-303 | chunks keep input order: splitting the pieces at a pair boundary splits the chunks the same way |
| HeaderSplit.ChunksCarryMarkers | services/pdf_generator.py:298-301 | every chunk but the last ends with a line break and the marker of the following header |
| HeaderSplit.SplitChunks | services/pdf_generator.py:293-304 | every returned chunk is non-blank and stripped, and every chunk but the last ends with a marker |
| HeaderSplit.SplitWithoutBoundary | services/pdf_generator.py:293-304 | text without a split point gives `[content.strip()]`, or `[]` when it is blank |
| SectionRender.ClassifyFacts | services/pdf_generator.py:311-345 | a line is blank exactly when whitespace-only; it is a heading exactly when its stripped form starts with `##`; none is a `###` line; heading titles are stripped and hash-free; a text line is stripped, non-empty, and neither heading nor bullet |
| SectionRender.ThreeHashesStartTwo | services/pdf_generator.py:321-329 | a line starting with `###` also starts with `##`, so the `###` branch is never taken |
| SectionRender.ProcessLine | services/pdf_generator.py:311-345 | one pass of the line loop: a text line joins the pending paragraph; any other line flushes it and adds its own blocks |
| SectionRender.ProcessSection | services/pdf_generator.py:306-349 | `_process_section` returns the reference rendering of the section's classified lines |
| SectionRender.TextRun | services/pdf_generator.py:344-348 | a run of text lines only extends the pending paragraph, which is flushed once at the end |
| SectionRender.RenderAfterTexts | services/pdf_generator.py:313-345 | the first non-text line flushes the text lines before it as one paragraph, then adds its own blocks |
| SectionRender.EmitFacts | services/pdf_generator.py:313-342 | blank lines and headings add one spacer each and bullets none; a heading adds its title as a first-level heading |
| SectionRender.FlushFacts | services/pdf_generator.py:314-316 | a flushed paragraph is at most one `Normal` paragraph, with no spacer and no heading |
| SectionRender.SpacerCount | services/pdf_generator.py:313-335 | the section's spacers number exactly its blank and heading lines |
| SectionRender.TitlesKept | services/pdf_generator.py:321-327 | the section's first-level headings are the heading lines' titles, in order |
| SectionRender.SectionFacts | services/pdf_generator.py:306-349 | a rendered section holds only normal paragraphs, first-level headings and spacers, with the spacer and heading counts above |
| SectionRender.ParagraphJoinsSpans | services/pdf_generator.py:344-348 | two lines `x*y1` and `y2*z`, each unchanged by the cleaner, join into a paragraph with one italic span `<i>y1 y2</i>` across the line break |
| SectionRender.ParseMarkdownContent | services/pdf_generator.py:281-291 | `_parse_markdown_content` returns the stories of the non-blank chunks, in order |
| SectionRender.StoriesOfNonBlank | services/pdf_generator.py:288-290 | when no chunk is blank, the emptiness test skips nothing |
| SectionRender.ReviewStoryAll | services/pdf_generator.py:281-304 | the review's blocks are the stories of all the splitter's chunks, since the splitter never returns a blank one |
| SectionRender.ReviewStoryBlocks | services/pdf_generator.py:281-291 | the review's blocks hold no page break and no chart |
| SectionRender.ReviewWithoutHeaders | services/pdf_generator.py:281-304 | review text without a header boundary renders as one section of its stripped text, or as nothing when blank |
| FileListing.PreviewFacts | services/pdf_generator.py:256-258 | text up to 2000 characters is shown whole; longer text shows its first 2000 characters, an empty line and the truncation notice |
| FileListing.PreviewLines | services/pdf_generator.py:256-261 | a truncated text's lines are those of its first 2000 characters, then an empty line and the notice; the notice is among the 50 shown lines exactly when those characters span at most 48 lines |
| FileListing.LineBlock | services/pdf_generator.py:262-265 | a whitespace-only line becomes a spacer; any other line becomes a code paragraph with its text unstripped |
| FileListing.Shown | services/pdf_generator.py:261 | `lines[:50]` holds at most 50 lines, is a prefix, and is the whole list when it has at most 50 lines |
| FileListing.AddFileContentsSection | services/pdf_generator.py:246-276 | `_add_file_contents_section` returns `Listing` of the files |
| FileListing.FileBlocksShape | services/pdf_generator.py:251-274 | per file: numbered heading, size and type line, spacer, one block per shown line, the notice exactly when there are more than 50 lines, then spacer, chart heading, a 400 by 300 chart and spacer |
| FileListing.FileSectionsSummary | services/pdf_generator.py:250-274 | the second-level headings number the files from the given start in input order, each followed by its chart title; there is one chart per file, in order, and no page break |
| FileListing.ListingFacts | services/pdf_generator.py:246-276 | the listing opens with "Code Files Reviewed", numbers the files from 1 in input order, has one chart per file and no page break |
| Clock.FileStampRoundTrip | services/pdf_generator.py:171 | `%Y%m%d_%H%M%S` is fifteen characters, digits around one underscore, and the reading can be read back from it |
| Clock.FileStampInjective | services/pdf_generator.py:171 | two readings have the same file stamp exactly when they are equal |
| Clock.TableStampRoundTrip | services/pdf_generator.py:216 | `%Y-%m-%d %H:%M:%S` is nineteen characters with its separators in place, and the reading can be read back from it |
| MetadataTable.AddMetadataSection | services/pdf_generator.py:211-241 | `_add_metadata_section` returns the heading, the four-row table and a spacer of `MetadataSection` |
| MetadataTable.MetadataFacts | services/pdf_generator.py:215-220 | the table has exactly the rows Generated, Files Reviewed, Model Used, Total Tokens; the reading and file count read back from their cells; an absent model or token entry shows "N/A", a `None` token entry shows "None", and a count shows its `str`, so the three never coincide |
| MetadataTable.NumberIsNotMissing | services/pdf_generator.py:219 | no token count prints as "N/A" or as "None" |
| MetadataTable.TokensTextInjective | services/pdf_generator.py:219 | equal token cells mean equal token entries: missing, `None` or the same count |
| ReportAssembly.GenerateReport | services/pdf_generator.py:166-206 | the story is `ReportStory`; on success the path in the reports directory is returned, on a build error the failure message with the error text |
| ReportAssembly.FrontMatterFacts | services/pdf_generator.py:184-193 | the front matter is title, spacer, the three metadata blocks, spacer and the listing; it holds no page break and exactly the files' charts |
| ReportAssembly.StoryShape | services/pdf_generator.py:195-200 | front matter, one page break, then the review: there is exactly one page break and it separates the two |
| ReportAssembly.ReportLayout | services/pdf_generator.py:184-200 | the report's blocks are title, spacer, report information, spacer, file listing, the only page break, and then exactly the cleaned review's blocks; its charts are the files' charts in order |
| ReportAssembly.ReportPathFacts | services/pdf_generator.py:171-173 | the path ends with `code_review_report_<stamp>.pdf` and is `dir + "/" + name` for a directory without a trailing slash |
| ReportAssembly.ReportNameInjective | services/pdf_generator.py:171-172 | two reports get the same name exactly when made in the same second |
| ReviewPrompt.BuildReviewPrompt | services/llm_client.py:138-192 | `_build_review_prompt` returns `Prompt` of the files |
| ReviewPrompt.FilesPartsShape | services/llm_client.py:175-185 | eight parts per file, the `k`-th file's at `8 * k` |
| ReviewPrompt.PromptStructure | services/llm_client.py:148-190 | 23 preamble parts, then file `k` (from 1, in input order) as its eight parts, then an empty part and the closing request: 25 + 8n parts; with no files, preamble and closing only |
| ReviewPrompt.FilePartsOneLine | services/llm_client.py:176-184 | a file whose name, type and text hold no line break gives eight one-line parts |
| ReviewPrompt.PromptLines | services/llm_client.py:148-192 | when no file's name, type or text holds a line break, the prompt's lines are the preamble's, then exactly the files' parts (eight lines per file), then the closing's |
| ReviewResponse.MissingChoices | services/llm_client.py:80-86 | a missing, null or empty `choices` gives `{success: False, error: 'No response from LLM', review: None, metadata: {}}`, and nothing else gives that error |
| ReviewResponse.SuccessfulResponse | services/llm_client.py:89-107 | success exactly when the first choice has a message object with a `content` key and `usage` is not `null`; then the review is that content, error is None, and the metadata holds the model, the timestamp, the file count, the names in input order and the three token counts, each 0 when missing and `None` when `null` |
| ReviewResponse.MissingKeys | services/llm_client.py:89-136 | a missing `message` or `content` key is reported like any other exception, as a `KeyError` naming the key |
| ReviewResponse.NullLookups | services/llm_client.py:89-136 | a `null` message is reported as the `TypeError` of subscripting `None`, and a `null` usage, after a readable content, as the `AttributeError` of `None.get` |
| ReviewResponse.ResultShape | services/llm_client.py:80-136 | every result either succeeds with no error and some metadata, or fails with an error, no review and `{}` |
| ReviewResponse.CaughtErrors | services/llm_client.py:109-136 | only a decoded response succeeds; each handler's message starts with its own prefix, and the exception's text can be read back after it |
| DataProcessorSample.DataProcessor.constructor | samples/data_processor.cpp:5-7 | a new processor holds no data |
| DataProcessorSample.DataProcessor.AddData | samples/data_processor.cpp:10-12 | the value is appended at the end and nothing else changes |
| DataProcessorSample.DataProcessor.SortData | samples/data_processor.cpp:14-16 | the data ends sorted ascending with the same elements, and so equals the reference sort of the old data |
| DataProcessorSample.InsertionSortFacts | samples/data_processor.cpp:14-16 | the reference sort orders its input and keeps every element |
| DataProcessorSample.SortedUnique | samples/data_processor.cpp:14-16 | two sorted sequences with the same elements are equal |
| DataProcessorSample.DataProcessor.GetSum | samples/data_processor.cpp:25-31 | when every running total fits in a 32-bit `int`, the result is the sum of the data (0 when empty); the data is not changed |
| DataProcessorSample.SumPermutation | samples/data_processor.cpp:25-31 | sums do not depend on the order of the elements |
| DataProcessorSample.SortKeepsSum | samples/data_processor.cpp:14-31 | sorting keeps the sum |
| DataProcessorSample.SortedSample | samples/data_processor.cpp:38-46 | the only sorted arrangement of 5, 2, 8, 1 is 1, 2, 5, 8 |
| DataProcessorSample.SampleSums | samples/data_processor.cpp:50 | every running total of 1, 2, 5, 8 fits, and the sum is 16 |
| DataProcessorSample.Scenario | samples/data_processor.cpp:34-53 | adding 5, 2, 8, 1 and sorting gives `[1, 2, 5, 8]`, whose sum is 16 |
| FibonacciSample.FibCases | samples/fibonacci.py:3-5 | every argument up to 1, negative ones included, is its own result; from 2 on the result is the sum of the two before; fib(0) = 0 and fib(1) = 1 |
| FibonacciSample.FibLinearAgrees | samples/fibonacci.py:1-5 | an independent linear-time two-variable definition agrees with the recursion on every natural number |
| FibonacciSample.FibMonotone | samples/fibonacci.py:3-5 | for natural numbers the result is non-negative and never shrinks as the argument grows |
| FibonacciSample.FibPositive | samples/fibonacci.py:3-5 | from 1 on the result is positive |

## Left out

- Styling, page setup and `doc.build` (pdf_generator.py:53-120, 175-182, 202): styles are names only. Whether the build fails, and with what text, is the `buildError` parameter of `GenerateReport`.
- `generate_complexity_graph` (pdf_generator.py:134-161): it plots floats with matplotlib. The chart is an opaque `Image` block holding the file name.
- The `markdown.markdown` call (pdf_generator.py:283-285): its result is never used.
- `datetime.now()` (pdf_generator.py:171, 216): the two readings are separate parameters of `GenerateReport`, which takes any reading. The response's timestamp string is a parameter of `ReviewCode`. Only the round-trip and injectivity lemmas (`Clock`, `ReportAssembly.ReportNameInjective`, `MetadataTable.MetadataFacts`) assume `Clock.Valid`: years 1000 to 9999, so that `%Y` has four digits, and each field in its range. `Valid` allows day 31 in every month, which `datetime` never produces for short months.
- `_ensure_reports_dir`, `get_report_info` and the class constructor (pdf_generator.py:34-51, 354-368): these are filesystem work.
- The HTTP request, `.env` loading, the API key check and `test_connection` (llm_client.py:16-36, 67-78, 194-242): these are network and environment I/O. How `requests` classifies an exception is not modelled; the handler that caught it is the `Exchange` value.
- ReviewResponse.FromResponse: a token count that is neither a number nor `null` (a string, say) is not modelled. The source would copy it into the metadata as it is.
- ReviewResponse.FromResponse: `choices` that is not a list, a first choice that is `null` or not an object, and a `message` or `usage` that is neither an object nor `null` are not modelled. The source would fail with a `TypeError`, `AttributeError` or `KeyError` of another form.
- MetadataTable.AddMetadataSection: a `model_used` entry that is present but not a string is not modelled. The source passes it to the table cell as it is, without `str`.
- ReportAssembly.GenerateReport: the review is always a string. A `None` review, which a `null` content gives, would make `re.sub` in `_clean_markdown_bold` raise `TypeError`, re-raised as "Failed to generate PDF report: …". That path is not modelled.
- ReviewPrompt.PromptLines: it states the prompt's lines relative to the preamble's own split, not as the closed count 25 + 8n. That count also needs the 23 fixed preamble lines to be free of line breaks. The verifier cannot establish that for string literals of this length, so it is not derived here.
- ReviewPrompt.FileParts: file names, types and sizes are taken as the record's strings and integers. Python would format any other value with `str`.
- FileListing.MetadataText: the size is taken as an integer. Python would make `:,` fail, or format differently, for any other value.
- `printData` and the `std::cout` output of `main` (data_processor.cpp:18-23, 43-50): console output only.
- DataProcessorSample.DataProcessor.SortData: `std::sort`'s algorithm is not visible. The model states what it promises, and by `SortedUnique` that fixes the result.
- DataProcessorSample.DataProcessor.GetSum: it requires every running total to fit in a 32-bit `int`, since C++ signed overflow is undefined behaviour.
- `main` of `samples/fibonacci.py` (fibonacci.py:7-18): console input and output.
- `app.py`, `db/database.py`, `start.py`, `test_setup.py` and `create_demo.py`: user interface, SQL storage and setup scripts, all I/O. They are not part of this model.
